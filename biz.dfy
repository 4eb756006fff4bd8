/** scripts/process_biz.py: expanding an account identifier ("biz") into every
    spelling obtained by swapping the look-alike symbols `0`, `O` and `o`, and
    building the identifier registry (processed_biz.json) from the lines of biz.txt. */
module Biz {
  import opened Text
  import opened Lists

  /** The three look-alike symbols: digit zero, capital O, small o. */
  predicate IsConfusable(c: char) {
    c == '0' || c == 'O' || c == 'o'
  }

  /** The two symbols written at a position whose original symbol is `ch`:
      the other two members of the triple. */
  function Alternatives(ch: char): (alts: (char, char))
    requires IsConfusable(ch)
    ensures forall c :: IsConfusable(c) <==> c == ch || c == alts.0 || c == alts.1
    ensures alts.0 != ch && alts.1 != ch && alts.0 != alts.1
  {
    if ch == '0' then ('O', 'o')
    else if ch == 'O' then ('0', 'o')
    else ('0', 'O')
  }

  /** `v[:pos] + c + v[pos+1:]`. */
  function Put(v: string, pos: nat, c: char): (w: string)
    requires pos < |v|
    ensures w == v[pos := c]
  {
    v[..pos] + [c] + v[pos + 1..]
  }

  /** `v` is a spelling of `s`: same length, the same symbol wherever `s` holds
      a non-confusable one, and one of `0`, `O`, `o` wherever `s` holds one of them. */
  ghost predicate IsVariant(v: string, s: string) {
    && |v| == |s|
    && forall i :: 0 <= i < |s| ==>
         if IsConfusable(s[i]) then IsConfusable(v[i]) else v[i] == s[i]
  }

  /** Like IsVariant, but only the positions in `done` may differ from `s`:
      the state of the expansion after it has handled the positions in `done`. */
  ghost predicate VariantOn(v: string, s: string, done: set<nat>) {
    && |v| == |s|
    && forall i :: 0 <= i < |s| ==>
         if i in done then IsConfusable(v[i]) else v[i] == s[i]
  }

  /** Number of positions of `s` holding a confusable symbol. */
  function ConfusableCount(s: string): nat {
    if s == [] then 0
    else (if IsConfusable(s[0]) then 1 else 0) + ConfusableCount(s[1..])
  }

  function Pow3(k: nat): nat {
    if k == 0 then 1 else 3 * Pow3(k - 1)
  }

  /** Independent reference definition of the expansion: the product, over
      the positions of `s`, of the symbols allowed there. */
  ghost function AllVariants(s: string): set<string>
    decreases |s|
  {
    if s == [] then {[]}
    else
      var tails := AllVariants(s[1..]);
      if IsConfusable(s[0]) then Prefixed('0', tails) + Prefixed('O', tails) + Prefixed('o', tails)
      else Prefixed(s[0], tails)
  }

  ghost function Prefixed(c: char, tails: set<string>): set<string> {
    set t | t in tails :: [c] + t
  }

  /** The reference product holds exactly the spellings of `s`. */
  lemma {:induction false} AllVariantsMembers(s: string)
    ensures forall v :: v in AllVariants(s) <==> IsVariant(v, s)
    decreases |s|
  {
    if s == [] {
      forall v | IsVariant(v, s) ensures v in AllVariants(s) {
        assert v == [];
      }
    } else {
      var tails := AllVariants(s[1..]);
      AllVariantsMembers(s[1..]);
      forall v | v in AllVariants(s) ensures IsVariant(v, s) {
        var t :| t in tails && v == [v[0]] + t;
        assert t == v[1..];
        assert IsVariant(t, s[1..]);
      }
      forall v | IsVariant(v, s) ensures v in AllVariants(s) {
        var t := v[1..];
        assert IsVariant(t, s[1..]) by {
          forall i | 0 <= i < |s[1..]|
            ensures if IsConfusable(s[1..][i]) then IsConfusable(t[i]) else t[i] == s[1..][i]
          {
            assert s[1..][i] == s[i + 1] && t[i] == v[i + 1];
          }
        }
        assert t in tails;
        assert v == [v[0]] + t;
        assert v in Prefixed(v[0], tails);
      }
    }
  }

  lemma {:induction false} PrefixedCard(c: char, tails: set<string>)
    ensures |Prefixed(c, tails)| == |tails|
    decreases tails
  {
    if tails != {} {
      var t :| t in tails;
      var rest := tails - {t};
      PrefixedCard(c, rest);
      assert Prefixed(c, tails) == Prefixed(c, rest) + {[c] + t};
      forall u | u in rest ensures [c] + u != [c] + t {
        assert ([c] + u)[1..] == u && ([c] + t)[1..] == t;
      }
    }
  }

  /** With k confusable positions there are exactly 3^k spellings. */
  lemma {:induction false} AllVariantsCard(s: string)
    ensures |AllVariants(s)| == Pow3(ConfusableCount(s))
    decreases |s|
  {
    if s != [] {
      var tails := AllVariants(s[1..]);
      AllVariantsCard(s[1..]);
      if IsConfusable(s[0]) {
        PrefixedCard('0', tails);
        PrefixedCard('O', tails);
        PrefixedCard('o', tails);
        var a, b, c := Prefixed('0', tails), Prefixed('O', tails), Prefixed('o', tails);
        assert a * b == {} by {
          forall w | w in a ensures w !in b { assert w[0] == '0'; }
        }
        assert (a + b) * c == {} by {
          forall w | w in a + b ensures w !in c { assert w[0] != 'o'; }
        }
      } else {
        PrefixedCard(s[0], tails);
      }
    }
  }

  /** One substitution at a confusable position `pos` not yet handled
      turns a spelling handled on `done` into one handled on `done + {pos}`. */
  lemma SubstituteStep(s: string, done: set<nat>, pos: nat, v: string, c: char)
    requires pos < |s| && IsConfusable(s[pos]) && IsConfusable(c)
    requires VariantOn(v, s, done)
    ensures VariantOn(v[pos := c], s, done + {pos})
  {
  }

  /** One round of the outer loop (process_biz.py:21-34): adding, for every
      spelling found so far, its two substitutes at `pos` extends the
      positions handled by `pos`. */
  lemma ExpandStep(s: string, done: set<nat>, pos: nat, found: set<string>, added: set<string>, alts: (char, char))
    requires pos < |s| && IsConfusable(s[pos]) && alts == Alternatives(s[pos])
    requires forall v :: v in found <==> VariantOn(v, s, done)
    requires forall w :: w in added ==> VariantOn(w, s, done + {pos})
    requires forall v :: v in found ==> |v| == |s| && v[pos := alts.0] in added && v[pos := alts.1] in added
    ensures forall w :: w in found + added <==> VariantOn(w, s, done + {pos})
  {
    forall w | w in found ensures VariantOn(w, s, done + {pos}) {
    }
    forall w | VariantOn(w, s, done + {pos}) ensures w in found + added {
      var v := w[pos := s[pos]];
      assert VariantOn(v, s, done);
      if w[pos] == s[pos] {
        assert w == v;
      } else {
        assert w == v[pos := w[pos]];
      }
    }
  }

  /** Before any position is handled, the only spelling is the identifier itself. */
  lemma NothingDone(s: string)
    ensures forall v :: v in {s} <==> VariantOn(v, s, {})
  {
    forall v | VariantOn(v, s, {}) ensures v == s {
    }
  }

  /** Once every confusable position is handled, the spellings found are all of them. */
  lemma FoundAll(s: string, done: set<nat>, found: set<string>)
    requires forall k :: k in done <==> 0 <= k < |s| && IsConfusable(s[k])
    requires forall v :: v in found <==> VariantOn(v, s, done)
    ensures forall v :: v in found <==> IsVariant(v, s)
    ensures found == AllVariants(s)
    ensures |found| == Pow3(ConfusableCount(s))
  {
    assert forall v :: VariantOn(v, s, done) <==> IsVariant(v, s);
    AllVariantsMembers(s);
    AllVariantsCard(s);
  }

  /** The first loop of `validate_and_fix_biz` (process_biz.py:15-18): the
      indices holding `0`, `O` or `o`, in increasing order. */
  method ConfusablePositions(biz: string) returns (positions: seq<nat>)
    ensures forall k :: k in positions <==> 0 <= k < |biz| && IsConfusable(biz[k])
    ensures forall a, b :: 0 <= a < b < |positions| ==> positions[a] < positions[b]
  {
    positions := [];
    for i := 0 to |biz|
      invariant forall k :: 0 <= k < |positions| ==> positions[k] < i
      invariant forall k :: k in positions ==> k < |biz| && IsConfusable(biz[k])
      invariant forall k :: 0 <= k < i && IsConfusable(biz[k]) ==> k in positions
      invariant forall a, b :: 0 <= a < b < |positions| ==> positions[a] < positions[b]
    {
      if IsConfusable(biz[i]) {
        positions := positions + [i];
      }
    }
  }

  /** `validate_and_fix_biz(biz)`: every spelling of `biz`, each once.
      The order of the list is Python's set iteration order, which the model
      leaves open. */
  method ValidateAndFixBiz(biz: string) returns (variants: seq<string>)
    ensures forall v :: v in variants <==> IsVariant(v, biz)
    ensures Elements(variants) == AllVariants(biz)
    ensures Distinct(variants)
    ensures |variants| == Pow3(ConfusableCount(biz))
    ensures biz in variants
  {
    var found: set<string> := {biz};

    var positions := ConfusablePositions(biz);

    ghost var done: set<nat> := {};
    assert forall v :: v in found <==> VariantOn(v, biz, done) by {
      NothingDone(biz);
    }
    for j := 0 to |positions|
      invariant forall v :: v in found <==> VariantOn(v, biz, done)
      invariant forall k :: k in done <==> k in positions[..j]
    {
      var pos := positions[j];
      assert pos in positions;
      assert pos !in done;
      var alts := Alternatives(biz[pos]);
      var added: set<string> := {};
      var todo := found;
      while todo != {}
        invariant todo <= found
        invariant forall w :: w in added ==> VariantOn(w, biz, done + {pos})
        invariant forall v :: v in found - todo ==> |v| == |biz| && v[pos := alts.0] in added && v[pos := alts.1] in added
        decreases todo
      {
        var v :| v in todo;
        SubstituteStep(biz, done, pos, v, alts.0);
        SubstituteStep(biz, done, pos, v, alts.1);
        assert found - (todo - {v}) == (found - todo) + {v};
        added := added + {Put(v, pos, alts.0), Put(v, pos, alts.1)};
        todo := todo - {v};
      }
      assert found - todo == found;
      ExpandStep(biz, done, pos, found, added, alts);
      found := found + added;
      done := done + {pos};
      assert positions[..j + 1] == positions[..j] + [pos];
    }

    assert positions[..|positions|] == positions;
    FoundAll(biz, done, found);
    variants := ListOf(found);
    assert forall v :: v in variants <==> v in found;
  }

  /** Every spelling has exactly the spellings of the original: expanding any
      returned variant gives back the same set. */
  lemma ExpansionClosed(s: string, v: string)
    requires v in AllVariants(s)
    ensures AllVariants(v) == AllVariants(s)
  {
    AllVariantsMembers(s);
    AllVariantsMembers(v);
    assert forall i :: 0 <= i < |s| ==> (IsConfusable(v[i]) <==> IsConfusable(s[i]));
    assert forall w :: IsVariant(w, v) <==> IsVariant(w, s);
  }

  lemma {:induction false} NoConfusableAt(s: string)
    requires ConfusableCount(s) == 0
    ensures forall i :: 0 <= i < |s| ==> !IsConfusable(s[i])
  {
    if s != [] {
      NoConfusableAt(s[1..]);
      assert forall i :: 1 <= i < |s| ==> s[i] == s[1..][i - 1];
    }
  }

  /** An identifier without `0`, `O` or `o` expands to itself alone. */
  lemma NoConfusableExpandsToItself(s: string)
    requires ConfusableCount(s) == 0
    ensures AllVariants(s) == {s}
  {
    AllVariantsMembers(s);
    NoConfusableAt(s);
    assert IsVariant(s, s);
    forall w | w in AllVariants(s) ensures w == s {
      assert IsVariant(w, s);
    }
  }

  /** The worked example: one zero at index 2. */
  lemma ExampleAB0CD()
    ensures AllVariants("AB0CD") == {"AB0CD", "ABOCD", "ABoCD"}
  {
    AllVariantsMembers("AB0CD");
    forall w | w in AllVariants("AB0CD") ensures w in {"AB0CD", "ABOCD", "ABoCD"} {
      assert IsVariant(w, "AB0CD");
      assert w == [w[0], w[1], w[2], w[3], w[4]];
    }
    assert IsVariant("ABOCD", "AB0CD");
    assert IsVariant("ABoCD", "AB0CD");
    assert IsVariant("AB0CD", "AB0CD");
  }

  // ---------------------------------------------------------------------
  // process_biz_file: lines of biz.txt -> registry

  /** The byte-order mark U+FEFF. */
  const Bom: char := '\U{FEFF}'

  /** The registry written when no line yields a key. */
  const Placeholder: map<string, seq<string>> := map["default" := ["MzI5MjAxNjM4MA=="]]

  /** The key a line contributes: the line stripped of surrounding whitespace,
      then with every BOM deleted. */
  function CleanLine(line: string): (key: string)
    ensures Bom !in key
  {
    RemoveChar(Strip(line), Bom)
  }

  /** The keys of the registry built from `lines`: the non-empty cleaned lines. */
  function RegistryKeys(lines: seq<string>): set<string> {
    if lines == [] then {}
    else (if CleanLine(lines[0]) != [] then {CleanLine(lines[0])} else {}) + RegistryKeys(lines[1..])
  }

  /** Every line whose cleaned form is non-empty contributes that key. */
  lemma {:induction false} RegistryKeysComplete(lines: seq<string>, l: string)
    requires l in lines && CleanLine(l) != []
    ensures CleanLine(l) in RegistryKeys(lines)
  {
    if l != lines[0] {
      assert l in lines[1..];
      RegistryKeysComplete(lines[1..], l);
    }
  }

  /** Every key is the non-empty cleaned form of some line. */
  lemma {:induction false} RegistryKeysSound(lines: seq<string>, key: string)
    requires key in RegistryKeys(lines)
    ensures key != [] && exists l :: l in lines && CleanLine(l) == key
  {
    var head := CleanLine(lines[0]);
    if head != [] && key == head {
      assert lines[0] in lines;
    } else {
      assert key in RegistryKeys(lines[1..]);
      RegistryKeysSound(lines[1..], key);
      var l :| l in lines[1..] && CleanLine(l) == key;
      assert l in lines;
    }
  }

  /** `[line.strip() for line in f if line.strip()]`: at most one entry per
      line, each non-empty and without whitespace at its ends. */
  function NonBlank(lines: seq<string>): (r: seq<string>)
    ensures |r| <= |lines|
    ensures forall i :: 0 <= i < |r| ==> r[i] != [] && IsTrimmed(r[i])
  {
    if lines == [] then []
    else if Strip(lines[0]) != [] then [Strip(lines[0])] + NonBlank(lines[1..])
    else NonBlank(lines[1..])
  }

  /** Nothing survives exactly when every line is blank. */
  lemma {:induction false} NonBlankEmpty(lines: seq<string>)
    ensures NonBlank(lines) == [] <==> forall l :: l in lines ==> Strip(l) == []
  {
    if lines != [] && Strip(lines[0]) == [] {
      NonBlankEmpty(lines[1..]);
      forall l | l in lines
        ensures l == lines[0] || l in lines[1..]
      {
        var j :| 0 <= j < |lines| && lines[j] == l;
        if j > 0 {
          assert lines[1..][j - 1] == l;
        }
      }
    }
  }

  /** Every kept line is non-empty and carries no surrounding whitespace. */
  lemma {:induction false} NonBlankTrimmed(lines: seq<string>, b: string)
    requires b in NonBlank(lines)
    ensures b != [] && IsTrimmed(b)
  {
    var head := Strip(lines[0]);
    if head == [] || b != head {
      assert b in NonBlank(lines[1..]);
      NonBlankTrimmed(lines[1..], b);
    }
  }

  /** A registry entry: `vs` lists every spelling of `key`, each once. */
  ghost predicate ValidEntry(key: string, vs: seq<string>) {
    && Elements(vs) == AllVariants(key)
    && Distinct(vs)
    && |vs| == Pow3(ConfusableCount(key))
  }

  lemma RegistryKeysFrom(bs: seq<string>, i: nat)
    requires i < |bs|
    ensures RegistryKeys(bs[i..]) == (if CleanLine(bs[i]) != [] then {CleanLine(bs[i])} else {}) + RegistryKeys(bs[i + 1..])
  {
    assert bs[i..][1..] == bs[i + 1..];
  }

  /** The loop over the stripped non-blank lines collects exactly the keys of the lines. */
  lemma {:induction false} RegistryKeysOfLines(lines: seq<string>)
    ensures RegistryKeys(NonBlank(lines)) == RegistryKeys(lines)
  {
    if lines != [] {
      RegistryKeysOfLines(lines[1..]);
      KeyOfFirstLine(lines);
    }
  }

  /** The first line contributes the same key to both sides. */
  lemma KeyOfFirstLine(lines: seq<string>)
    requires lines != []
    ensures RegistryKeys(NonBlank(lines)) == RegistryKeys(NonBlank(lines[1..]))
              + (if CleanLine(lines[0]) != [] then {CleanLine(lines[0])} else {})
  {
    var l := lines[0];
    if Strip(l) != [] {
      StripIdempotent(l);
      assert CleanLine(Strip(l)) == CleanLine(l);
      var kept := NonBlank(lines);
      assert kept == [Strip(l)] + NonBlank(lines[1..]);
      assert kept[1..] == NonBlank(lines[1..]);
    } else {
      assert CleanLine(l) == [];
    }
  }

  /** The registry `process_biz_file` writes to processed_biz.json and returns,
      given the lines of biz.txt. With no non-blank line the script raises
      and returns `{}` without writing; with non-blank lines none of which
      leaves a key, it writes the placeholder. */
  method ProcessBizFile(lines: seq<string>) returns (registry: map<string, seq<string>>)
    ensures (forall l :: l in lines ==> Strip(l) == []) ==> registry == map[]
    ensures (exists l :: l in lines && Strip(l) != []) && RegistryKeys(lines) == {}
            ==> registry == Placeholder
    ensures RegistryKeys(lines) != {} ==>
              && registry.Keys == RegistryKeys(lines)
              && AllValid(registry)
  {
    var bizList := NonBlank(lines);
    NonBlankEmpty(lines);
    RegistryKeysOfLines(lines);
    if bizList == [] {
      return map[];
    }
    registry := CollectVariants(bizList);
    if registry == map[] {
      registry := Placeholder;
    }
  }

  /** Every entry of the registry lists all spellings of its key. */
  ghost predicate AllValid(registry: map<string, seq<string>>) {
    forall key :: key in registry ==> ValidEntry(key, registry[key])
  }

  /** The loop of `process_biz_file` over the stripped non-blank lines: one
      entry per non-empty cleaned line, holding all its spellings. */
  method CollectVariants(bizList: seq<string>) returns (registry: map<string, seq<string>>)
    ensures registry.Keys == RegistryKeys(bizList)
    ensures AllValid(registry)
  {
    registry := map[];
    assert bizList[0..] == bizList;
    for i := 0 to |bizList|
      invariant registry.Keys + RegistryKeys(bizList[i..]) == RegistryKeys(bizList)
      invariant AllValid(registry)
    {
      CollectKeysStep(bizList, i, registry.Keys);
      registry := AddEntry(registry, bizList[i]);
    }
    assert bizList[|bizList|..] == [];
  }

  /** One turn of the registry loop: the line, cleaned again, becomes a key listing
      its variants, unless nothing is left of it. */
  method AddEntry(registry: map<string, seq<string>>, line: string) returns (next: map<string, seq<string>>)
    requires AllValid(registry)
    ensures next.Keys == if CleanLine(line) != [] then registry.Keys + {CleanLine(line)} else registry.Keys
    ensures forall k :: k in registry && k != CleanLine(line) ==> next[k] == registry[k]
    ensures AllValid(next)
  {
    var biz := CleanLine(line);
    next := registry;
    if biz != [] {
      var variants := ValidateAndFixBiz(biz);
      AllValidPut(registry, biz, variants);
      next := registry[biz := variants];
    }
  }

  /** One turn of the registry loop adds the key of line `i`, if any. */
  lemma CollectKeysStep(bizList: seq<string>, i: nat, keys: set<string>)
    requires i < |bizList|
    requires keys + RegistryKeys(bizList[i..]) == RegistryKeys(bizList)
    ensures var biz := CleanLine(bizList[i]);
      (if biz != [] then keys + {biz} else keys) + RegistryKeys(bizList[i + 1..]) == RegistryKeys(bizList)
  {
    RegistryKeysFrom(bizList, i);
  }

  /** Storing all spellings of a key keeps every entry valid. */
  lemma AllValidPut(registry: map<string, seq<string>>, biz: string, variants: seq<string>)
    requires AllValid(registry)
    requires Elements(variants) == AllVariants(biz)
    requires Distinct(variants) && |variants| == Pow3(ConfusableCount(biz))
    ensures AllValid(registry[biz := variants])
  {
    var next := registry[biz := variants];
    forall key | key in next
      ensures ValidEntry(key, next[key])
    {
      if key != biz {
        assert next[key] == registry[key];
      }
    }
  }

  /** Stripping happens before the BOM is deleted, so a BOM followed by a
      space leaves the space in the key. */
  lemma BomBeforeSpaceKeepsSpace()
    ensures CleanLine("\U{FEFF} ab\n") == " ab"
  {
    BomLineStripped();
    BomDeleted();
  }

  /** Stripping the line removes only the newline: the BOM is not whitespace. */
  lemma BomLineStripped()
    ensures Strip("\U{FEFF} ab\n") == "\U{FEFF} ab"
  {
    TrimStartNoSpace("\U{FEFF} ab\n");
    BomLineTrimEnd();
  }

  lemma BomLineTrimEnd()
    ensures TrimEnd("\U{FEFF} ab\n") == "\U{FEFF} ab"
  {
    var line := "\U{FEFF} ab\n";
    var kept := "\U{FEFF} ab";
    assert line[..|line| - 1] == kept;
    TrimEndNoSpace(kept);
  }

  /** Deleting the BOM leaves the space that followed it. */
  lemma BomDeleted()
    ensures RemoveChar("\U{FEFF} ab", Bom) == " ab"
  {
    var kept := "\U{FEFF} ab";
    assert kept[1..] == " ab";
    assert Bom !in " ab";
  }
}
