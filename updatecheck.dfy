/** `scripts/check_updates.py`: decides whether the feed has a newer article than
    the instant persisted in `last_update.json`, and moves that instant forward.
    Instants are integers (seconds); the feed and the registry file are inputs. */
module UpdateCheck {
  import opened Text
  import opened Wrappers
  import opened Lists

  /** One feed entry as the feed parser delivers it: its publication instant,
      when the entry has one, and its description (`''` when it has none). */
  datatype Entry = Entry(published: Option<int>, description: string)

  /** What `last_update.json` holds: no file, a file that cannot be read back as
      an instant (bad JSON, no `last_update` key, a malformed timestamp), or an
      instant. */
  datatype Stored = Missing | Unreadable | At(time: int)

  /** What one run of `check_updates` reports, and what it leaves on disk. */
  datatype Outcome = Outcome(updated: bool, stored: Stored)

  /** The variants listed under any key of the registry. */
  predicate Listed(registry: map<string, seq<string>>, v: string) {
    exists k :: k in registry && v in registry[k]
  }

  /** The variants listed under the keys `ks` of the registry. */
  function ListedUnder(registry: map<string, seq<string>>, ks: set<string>): set<string> {
    set k, v | k in ks && k in registry && v in registry[k] :: v
  }

  /** `get_valid_biz_list`: every variant of every registry entry, once each;
      the empty list when the registry file is missing or cannot be read
      (`None`). */
  method GetValidBizList(registry: Option<map<string, seq<string>>>) returns (list: seq<string>)
    ensures registry.None? ==> list == []
    ensures registry.Some? ==> forall v :: v in list <==> Listed(registry.value, v)
    ensures Distinct(list)
  {
    if registry.None? {
      return [];
    }
    var bizData := registry.value;
    var allVariants: set<string> := {};
    var rest := bizData.Keys;
    while rest != {}
      invariant rest <= bizData.Keys
      invariant allVariants == ListedUnder(bizData, bizData.Keys - rest)
      decreases rest
    {
      var k :| k in rest;
      assert ListedUnder(bizData, bizData.Keys - (rest - {k}))
        == ListedUnder(bizData, bizData.Keys - rest) + Elements(bizData[k]);
      allVariants := allVariants + Elements(bizData[k]);
      rest := rest - {k};
    }
    assert bizData.Keys - rest == bizData.Keys;
    list := ListOf(allVariants);
    forall v
      ensures v in list <==> Listed(bizData, v)
    {
      if Listed(bizData, v) {
        var k :| k in bizData && v in bizData[k];
        assert v in ListedUnder(bizData, bizData.Keys);
      }
      if v in list {
        assert v in ListedUnder(bizData, bizData.Keys);
        var k :| k in bizData.Keys && k in bizData && v in bizData[k];
      }
    }
  }

  /** The instant `load_last_update` yields: the stored one, or "now" when there
      is no file yet; `None` when the file is unreadable (the run then fails). */
  function Baseline(stored: Stored, now: int): (r: Option<int>)
    ensures r.None? <==> stored.Unreadable?
    ensures stored.At? ==> r == Some(stored.time)
    ensures stored.Missing? ==> r == Some(now)
  {
    match stored
    case Missing => Some(now)
    case Unreadable => None
    case At(t) => Some(t)
  }

  /** The decision of `check_updates` without its biz-matching loop: with no
      entries nothing is read or written; otherwise the stored instant is loaded
      (and initialised to `now` if there was none), and the first entry's
      publication instant replaces it exactly when it is strictly later. */
  function CheckOutcome(stored: Stored, entries: seq<Entry>, now: int): (r: Outcome)
    ensures r.updated <==>
      entries != [] && Baseline(stored, now).Some? && entries[0].published.Some?
      && entries[0].published.value > Baseline(stored, now).value
    ensures entries == [] || stored.Unreadable? ==> r.stored == stored
    ensures entries != [] && !stored.Unreadable? ==>
      r.stored == At(if r.updated then entries[0].published.value else Baseline(stored, now).value)
    ensures r.updated ==> r.stored == At(entries[0].published.value)
    ensures stored.At? ==> r.stored.At? && r.stored.time >= stored.time
  {
    if entries == [] then Outcome(false, stored)
    else match stored
      case Unreadable => Outcome(false, stored)
      case Missing => Compare(now, entries[0])
      case At(last) => Compare(last, entries[0])
  }

  /** Comparing the newest entry with the loaded instant `last`. */
  function Compare(last: int, latest: Entry): (r: Outcome)
    ensures r.updated <==> latest.published.Some? && latest.published.value > last
    ensures r.stored.At? && r.stored.time == if r.updated then latest.published.value else last
  {
    if latest.published.Some? && latest.published.value > last then Outcome(true, At(latest.published.value))
    else Outcome(false, At(last))
  }

  /** The stored instant after a run is the larger of the loaded instant and the
      entry's publication instant: it never moves backwards. */
  lemma StoredIsMax(stored: Stored, entries: seq<Entry>, now: int)
    requires entries != [] && !stored.Unreadable? && entries[0].published.Some?
    ensures CheckOutcome(stored, entries, now).stored
      == At(Max(Baseline(stored, now).value, entries[0].published.value))
  {
  }

  function Max(a: int, b: int): (m: int)
    ensures m >= a && m >= b && (m == a || m == b)
  {
    if a >= b then a else b
  }

  /** Running the check again on the same feed reports nothing new and leaves
      the stored instant where the first run put it, whatever the clock says. */
  lemma RerunReportsNothing(stored: Stored, entries: seq<Entry>, now: int, later: int)
    ensures var first := CheckOutcome(stored, entries, now);
      CheckOutcome(first.stored, entries, later) == Outcome(false, first.stored)
  {
  }

  /** An empty feed is reported as no update and touches nothing, not even a
      missing file. */
  lemma EmptyFeedChangesNothing(stored: Stored, now: int)
    ensures CheckOutcome(stored, [], now) == Outcome(false, stored)
  {
  }

  /** A newest entry without a publication instant is never an update; the only
      change it can cause is the initial file the load writes. */
  lemma NoPublicationTimeNoUpdate(stored: Stored, entries: seq<Entry>, now: int)
    requires entries != [] && entries[0].published.None?
    ensures !CheckOutcome(stored, entries, now).updated
    ensures CheckOutcome(stored, entries, now).stored
      == (if stored.Missing? then At(now) else stored)
  {
  }

  /** The persisted state of `check_updates.py`: the contents of
      `last_update.json`, which `save_last_update` overwrites. */
  class UpdateTracker {
    var stored: Stored

    constructor (initial: Stored)
      ensures stored == initial
    {
      stored := initial;
    }

    /** `save_last_update`: the file now holds `time`. */
    method SaveLastUpdate(time: int)
      modifies this
      ensures stored == At(time)
    {
      stored := At(time);
    }

    /** `load_last_update`: the stored instant; when there is no file, `now`,
        which is saved first. An unreadable file raises, modelled as `None`. */
    method LoadLastUpdate(now: int) returns (last: Option<int>)
      modifies this
      ensures last == Baseline(old(stored), now)
      ensures stored == if old(stored).Missing? then At(now) else old(stored)
    {
      match stored
      case Missing =>
        SaveLastUpdate(now);
        last := Some(now);
      case Unreadable =>
        last := None;
      case At(t) =>
        last := Some(t);
    }

    /** `check_updates`, with its biz-matching loop as written: the registry
        file's contents (`None` when it is missing or unreadable), the feed's
        entries newest first, and the current instant are inputs. Whatever the
        registry and the descriptions hold, the result and the new state are
        those of `CheckOutcome`. */
    method CheckUpdates(registry: Option<map<string, seq<string>>>, entries: seq<Entry>, now: int)
      returns (updated: bool)
      modifies this
      ensures Outcome(updated, stored) == CheckOutcome(old(stored), entries, now)
    {
      var validBizList := GetValidBizList(registry);
      if |entries| == 0 {
        return false;
      }
      var lastUpdate := LoadLastUpdate(now);
      if lastUpdate.None? {
        return false;
      }
      var last := lastUpdate.value;
      var latestEntry := entries[0];
      if latestEntry.published.Some? {
        var latestTime := latestEntry.published.value;
        var description := latestEntry.description;
        if Contains(description, "biz=") {
          for i := 0 to |validBizList|
            invariant stored == At(last)
          {
            if Contains(description, "biz=" + validBizList[i]) {
              if latestTime > last {
                SaveLastUpdate(latestTime);
                return true;
              }
            }
          }
        }
        if latestTime > last {
          SaveLastUpdate(latestTime);
          return true;
        }
      }
      return false;
    }
  }
}
