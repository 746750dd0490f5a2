/**
 * The word-level diff that the dashboard shows between a user's sentence and
 * its correction (`createDiff` in frontend/src/components/Dashboard.tsx).
 *
 * Both sentences are split on whitespace; tokens are compared lower-cased and
 * emitted with their original case. Two cursors walk the token streams; on a
 * mismatch a window of up to three tokens is searched, first on the corrected
 * side and then on the user side, before the pair is declared changed.
 *
 * `Step` is one iteration of the source's loop, `Walk` the whole loop as a
 * recursive function, and `CreateDiff` the loop itself, proved to compute `Walk`.
 */
module Diff {
  import opened JsStrings

  datatype Tag = Same | Changed | Added | Removed

  /** One displayed token (`DiffResult`): its tag and its original-case text. */
  datatype DiffEntry = DiffEntry(tag: Tag, text: string)

  /** The four values a loop iteration changes: what it appends to each side and the two cursors. */
  datatype Emit = Emit(user: seq<DiffEntry>, corrected: seq<DiffEntry>, userIndex: nat, correctedIndex: nat)

  function Texts(d: seq<DiffEntry>): (r: seq<string>)
    ensures |r| == |d| && forall i :: 0 <= i < |d| ==> r[i] == d[i].text
  {
    seq(|d|, i requires 0 <= i < |d| => d[i].text)
  }

  /** The same tag on every one of the texts, in order. */
  function Tagged(t: Tag, texts: seq<string>): (r: seq<DiffEntry>)
    ensures |r| == |texts| && forall i :: 0 <= i < |texts| ==> r[i] == DiffEntry(t, texts[i])
  {
    seq(|texts|, i requires 0 <= i < |texts| => DiffEntry(t, texts[i]))
  }

  lemma TaggedFrom(t: Tag, texts: seq<string>, i: nat)
    requires i < |texts|
    ensures Tagged(t, texts[i..]) == [DiffEntry(t, texts[i])] + Tagged(t, texts[i + 1..])
  {
  }

  predicate NoTag(d: seq<DiffEntry>, t: Tag) {
    forall i :: 0 <= i < |d| ==> d[i].tag != t
  }

  predicate IsPair(e: DiffEntry) {
    e.tag == Same || e.tag == Changed
  }

  /** The `same` and `changed` entries of one side, in order. */
  function Pairs(d: seq<DiffEntry>): (r: seq<DiffEntry>)
    ensures |r| <= |d|
  {
    if d == [] then [] else (if IsPair(d[0]) then [d[0]] else []) + Pairs(d[1..])
  }

  /**
   * The paired entries of the two sides line up one to one: the same tag at
   * each position, and the two texts of a `same` pair are equal once lower-cased.
   */
  predicate Matched(us: seq<DiffEntry>, cs: seq<DiffEntry>) {
    && |us| == |cs|
    && forall k :: 0 <= k < |us| ==>
         && us[k].tag == cs[k].tag
         && (us[k].tag == Same ==> Lower(us[k].text) == Lower(cs[k].text))
  }

  /** `Math.min(from + 3, len)`: the end of a lookahead window. */
  function WindowEnd(from: nat, len: nat): (e: nat)
    ensures e <= len && e <= from + 3
    ensures e == len || e == from + 3
  {
    if from + 3 < len then from + 3 else len
  }

  /**
   * The first index in `[from, end)` whose key equals `key`, or `end` when
   * there is none: the `for` loop with `break` of the lookahead.
   */
  function Seek(key: string, keys: seq<string>, from: nat, end: nat): (k: nat)
    requires from <= end <= |keys|
    ensures from <= k <= end
    ensures forall m :: from <= m < k ==> keys[m] != key
    ensures k < end ==> keys[k] == key
    decreases end - from
  {
    if from == end then end
    else if keys[from] == key then from
    else Seek(key, keys, from + 1, end)
  }

  /** The keys are the lower-cased originals, as `userWords` and `originalUserWords` are. */
  predicate Keyed(keys: seq<string>, texts: seq<string>) {
    |keys| == |texts| && forall i :: 0 <= i < |texts| ==> keys[i] == Lower(texts[i])
  }

  lemma {:induction false} PairsAppend(a: seq<DiffEntry>, b: seq<DiffEntry>)
    ensures Pairs(a + b) == Pairs(a) + Pairs(b)
  {
    if a == [] {
      assert a + b == b;
    } else {
      var head := if IsPair(a[0]) then [a[0]] else [];
      assert (a + b)[0] == a[0];
      assert (a + b)[1..] == a[1..] + b;
      PairsAppend(a[1..], b);
      assert Pairs(a + b) == head + (Pairs(a[1..]) + Pairs(b));
      assert head + (Pairs(a[1..]) + Pairs(b)) == (head + Pairs(a[1..])) + Pairs(b);
    }
  }

  lemma {:induction false} PairsOfTagged(t: Tag, texts: seq<string>)
    requires t == Added || t == Removed
    ensures Pairs(Tagged(t, texts)) == []
  {
    if texts != [] {
      assert Tagged(t, texts)[1..] == Tagged(t, texts[1..]);
      PairsOfTagged(t, texts[1..]);
    }
  }

  lemma MatchedAppend(a1: seq<DiffEntry>, a2: seq<DiffEntry>, b1: seq<DiffEntry>, b2: seq<DiffEntry>)
    requires Matched(a1, a2) && Matched(b1, b2)
    ensures Matched(a1 + b1, a2 + b2)
  {
    var u, c := a1 + b1, a2 + b2;
    forall k | 0 <= k < |u|
      ensures u[k].tag == c[k].tag && (u[k].tag == Same ==> Lower(u[k].text) == Lower(c[k].text))
    {
      if k < |a1| {
        assert u[k] == a1[k] && c[k] == a2[k];
      } else {
        assert u[k] == b1[k - |a1|] && c[k] == b2[k - |a1|];
      }
    }
  }

  /**
   * One iteration of the `while` loop at user cursor `ui` and corrected cursor
   * `ci`: what it appends to `userDiff` and `correctedDiff` and where it
   * leaves the cursors.
   */
  function Step(uk: seq<string>, ck: seq<string>, uo: seq<string>, co: seq<string>, ui: nat, ci: nat): (e: Emit)
    requires Keyed(uk, uo) && Keyed(ck, co)
    requires ui <= |uk| && ci <= |ck| && (ui < |uk| || ci < |ck|)
    // every iteration advances at least one cursor and stays in bounds
    ensures ui <= e.userIndex <= |uk| && ci <= e.correctedIndex <= |ck|
    ensures e.userIndex + e.correctedIndex > ui + ci
    // a resynchronising match lies at most two tokens ahead
    ensures e.userIndex <= ui + 3 && e.correctedIndex <= ci + 3
  {
    if ui >= |uk| then
      Emit([], [DiffEntry(Added, co[ci])], ui, ci + 1)
    else if ci >= |ck| then
      Emit([DiffEntry(Removed, uo[ui])], [], ui + 1, ci)
    else if uk[ui] == ck[ci] then
      Emit([DiffEntry(Same, uo[ui])], [DiffEntry(Same, co[ci])], ui + 1, ci + 1)
    else
      var k := Seek(uk[ui], ck, ci, WindowEnd(ci, |ck|));
      if k < WindowEnd(ci, |ck|) then
        Emit([DiffEntry(Same, uo[ui])], Tagged(Added, co[ci..k]) + [DiffEntry(Same, co[k])], ui + 1, k + 1)
      else
        var k2 := Seek(ck[ci], uk, ui, WindowEnd(ui, |uk|));
        if k2 < WindowEnd(ui, |uk|) then
          Emit(Tagged(Removed, uo[ui..k2]) + [DiffEntry(Same, uo[k2])], [DiffEntry(Same, co[ci])], k2 + 1, ci + 1)
        else
          Emit([DiffEntry(Changed, uo[ui])], [DiffEntry(Changed, co[ci])], ui + 1, ci + 1)
  }

  /** The step taken when both cursors hold equal keys. */
  lemma StepSame(uk: seq<string>, ck: seq<string>, uo: seq<string>, co: seq<string>, ui: nat, ci: nat)
    requires Keyed(uk, uo) && Keyed(ck, co)
    requires ui < |uk| && ci < |ck| && uk[ui] == ck[ci]
    ensures Step(uk, ck, uo, co, ui, ci) == Emit([DiffEntry(Same, uo[ui])], [DiffEntry(Same, co[ci])], ui + 1, ci + 1)
  {
  }

  /** The step taken when the user's token reappears at `k` in the corrected-side window. */
  lemma StepTargetResync(uk: seq<string>, ck: seq<string>, uo: seq<string>, co: seq<string>, ui: nat, ci: nat, k: nat)
    requires Keyed(uk, uo) && Keyed(ck, co)
    requires ui < |uk| && ci < |ck| && uk[ui] != ck[ci]
    requires k == Seek(uk[ui], ck, ci, WindowEnd(ci, |ck|)) && k < WindowEnd(ci, |ck|)
    ensures Step(uk, ck, uo, co, ui, ci)
      == Emit([DiffEntry(Same, uo[ui])], Tagged(Added, co[ci..k]) + [DiffEntry(Same, co[k])], ui + 1, k + 1)
  {
  }

  /** The step taken when only the corrected token reappears at `k` in the user-side window. */
  lemma StepSourceResync(uk: seq<string>, ck: seq<string>, uo: seq<string>, co: seq<string>, ui: nat, ci: nat, k: nat)
    requires Keyed(uk, uo) && Keyed(ck, co)
    requires ui < |uk| && ci < |ck| && uk[ui] != ck[ci]
    requires Seek(uk[ui], ck, ci, WindowEnd(ci, |ck|)) == WindowEnd(ci, |ck|)
    requires k == Seek(ck[ci], uk, ui, WindowEnd(ui, |uk|)) && k < WindowEnd(ui, |uk|)
    ensures Step(uk, ck, uo, co, ui, ci)
      == Emit(Tagged(Removed, uo[ui..k]) + [DiffEntry(Same, uo[k])], [DiffEntry(Same, co[ci])], k + 1, ci + 1)
  {
  }

  /** The step taken when neither window holds a match. */
  lemma StepChanged(uk: seq<string>, ck: seq<string>, uo: seq<string>, co: seq<string>, ui: nat, ci: nat)
    requires Keyed(uk, uo) && Keyed(ck, co)
    requires ui < |uk| && ci < |ck| && uk[ui] != ck[ci]
    requires Seek(uk[ui], ck, ci, WindowEnd(ci, |ck|)) == WindowEnd(ci, |ck|)
    requires Seek(ck[ci], uk, ui, WindowEnd(ui, |uk|)) == WindowEnd(ui, |uk|)
    ensures Step(uk, ck, uo, co, ui, ci) == Emit([DiffEntry(Changed, uo[ui])], [DiffEntry(Changed, co[ci])], ui + 1, ci + 1)
  {
  }

  lemma TextsAppend(a: seq<DiffEntry>, b: seq<DiffEntry>)
    ensures Texts(a + b) == Texts(a) + Texts(b)
  {
  }

  /** A run of tagged tokens followed by one `same` token gives back the texts in order. */
  lemma RunTexts(t: Tag, texts: seq<string>, lo: nat, k: nat)
    requires lo <= k < |texts|
    ensures Texts(Tagged(t, texts[lo..k]) + [DiffEntry(Same, texts[k])]) == texts[lo..k + 1]
  {
    TextsAppend(Tagged(t, texts[lo..k]), [DiffEntry(Same, texts[k])]);
    assert texts[lo..k + 1] == texts[lo..k] + [texts[k]];
  }

  /** Each iteration emits exactly the tokens it consumes, in order. */
  lemma StepTexts(uk: seq<string>, ck: seq<string>, uo: seq<string>, co: seq<string>, ui: nat, ci: nat)
    requires Keyed(uk, uo) && Keyed(ck, co)
    requires ui <= |uk| && ci <= |ck| && (ui < |uk| || ci < |ck|)
    ensures var e := Step(uk, ck, uo, co, ui, ci);
      Texts(e.user) == uo[ui..e.userIndex] && Texts(e.corrected) == co[ci..e.correctedIndex]
  {
    if ui == |uk| || ci == |ck| {
      StepExhausted(uk, ck, uo, co, ui, ci);
    } else if uk[ui] == ck[ci] {
      StepSame(uk, ck, uo, co, ui, ci);
    } else {
      var k := Seek(uk[ui], ck, ci, WindowEnd(ci, |ck|));
      var k2 := Seek(ck[ci], uk, ui, WindowEnd(ui, |uk|));
      if k < WindowEnd(ci, |ck|) {
        StepTargetResync(uk, ck, uo, co, ui, ci, k);
        RunTexts(Added, co, ci, k);
      } else if k2 < WindowEnd(ui, |uk|) {
        StepSourceResync(uk, ck, uo, co, ui, ci, k2);
        RunTexts(Removed, uo, ui, k2);
      } else {
        StepChanged(uk, ck, uo, co, ui, ci);
      }
    }
  }

  lemma NoTagAppend(a: seq<DiffEntry>, b: seq<DiffEntry>, t: Tag)
    requires NoTag(a, t) && NoTag(b, t)
    ensures NoTag(a + b, t)
  {
    forall i | 0 <= i < |a + b|
      ensures (a + b)[i].tag != t
    {
      if i < |a| { assert (a + b)[i] == a[i]; } else { assert (a + b)[i] == b[i - |a|]; }
    }
  }

  /** `added` appears only on the corrected side and `removed` only on the user side. */
  lemma StepPlacement(uk: seq<string>, ck: seq<string>, uo: seq<string>, co: seq<string>, ui: nat, ci: nat)
    requires Keyed(uk, uo) && Keyed(ck, co)
    requires ui <= |uk| && ci <= |ck| && (ui < |uk| || ci < |ck|)
    ensures var e := Step(uk, ck, uo, co, ui, ci);
      NoTag(e.user, Added) && NoTag(e.corrected, Removed)
  {
    if ui == |uk| || ci == |ck| {
      StepExhausted(uk, ck, uo, co, ui, ci);
    } else if uk[ui] == ck[ci] {
      StepSame(uk, ck, uo, co, ui, ci);
    } else {
      var k := Seek(uk[ui], ck, ci, WindowEnd(ci, |ck|));
      var k2 := Seek(ck[ci], uk, ui, WindowEnd(ui, |uk|));
      if k < WindowEnd(ci, |ck|) {
        StepTargetResync(uk, ck, uo, co, ui, ci, k);
        NoTagAppend(Tagged(Added, co[ci..k]), [DiffEntry(Same, co[k])], Removed);
      } else if k2 < WindowEnd(ui, |uk|) {
        StepSourceResync(uk, ck, uo, co, ui, ci, k2);
        NoTagAppend(Tagged(Removed, uo[ui..k2]), [DiffEntry(Same, uo[k2])], Added);
      } else {
        StepChanged(uk, ck, uo, co, ui, ci);
      }
    }
  }

  /**
   * The paired entries a step emits line up: one `same` or `changed` entry on
   * each side, and a `same` pair agrees once lower-cased.
   */
  lemma StepPairs(uk: seq<string>, ck: seq<string>, uo: seq<string>, co: seq<string>, ui: nat, ci: nat)
    requires Keyed(uk, uo) && Keyed(ck, co)
    requires ui <= |uk| && ci <= |ck| && (ui < |uk| || ci < |ck|)
    ensures var e := Step(uk, ck, uo, co, ui, ci);
      Matched(Pairs(e.user), Pairs(e.corrected))
  {
    if ui == |uk| {
      StepExhausted(uk, ck, uo, co, ui, ci);
      assert Pairs([DiffEntry(Added, co[ci])]) == [];
    } else if ci == |ck| {
      StepExhausted(uk, ck, uo, co, ui, ci);
      assert Pairs([DiffEntry(Removed, uo[ui])]) == [];
    } else if uk[ui] == ck[ci] {
      StepSame(uk, ck, uo, co, ui, ci);
      assert Pairs([DiffEntry(Same, uo[ui])]) == [DiffEntry(Same, uo[ui])];
      assert Pairs([DiffEntry(Same, co[ci])]) == [DiffEntry(Same, co[ci])];
    } else {
      var k := Seek(uk[ui], ck, ci, WindowEnd(ci, |ck|));
      var k2 := Seek(ck[ci], uk, ui, WindowEnd(ui, |uk|));
      if k < WindowEnd(ci, |ck|) {
        StepTargetResync(uk, ck, uo, co, ui, ci, k);
        ResyncPairs(Added, co, ci, k);
        assert Pairs([DiffEntry(Same, uo[ui])]) == [DiffEntry(Same, uo[ui])];
        assert Lower(uo[ui]) == uk[ui] == ck[k] == Lower(co[k]);
      } else if k2 < WindowEnd(ui, |uk|) {
        StepSourceResync(uk, ck, uo, co, ui, ci, k2);
        ResyncPairs(Removed, uo, ui, k2);
        assert Pairs([DiffEntry(Same, co[ci])]) == [DiffEntry(Same, co[ci])];
        assert Lower(uo[k2]) == uk[k2] == ck[ci] == Lower(co[ci]);
      } else {
        StepChanged(uk, ck, uo, co, ui, ci);
        assert Pairs([DiffEntry(Changed, uo[ui])]) == [DiffEntry(Changed, uo[ui])];
        assert Pairs([DiffEntry(Changed, co[ci])]) == [DiffEntry(Changed, co[ci])];
      }
    }
  }

  /** A resynchronising run pairs only its final `same` token. */
  lemma ResyncPairs(t: Tag, texts: seq<string>, lo: nat, k: nat)
    requires t == Added || t == Removed
    requires lo <= k < |texts|
    ensures Pairs(Tagged(t, texts[lo..k]) + [DiffEntry(Same, texts[k])]) == [DiffEntry(Same, texts[k])]
  {
    PairsOfTagged(t, texts[lo..k]);
    PairsAppend(Tagged(t, texts[lo..k]), [DiffEntry(Same, texts[k])]);
    assert Pairs([DiffEntry(Same, texts[k])]) == [DiffEntry(Same, texts[k])];
  }

  /** Once the user side has run out, every remaining corrected token is `added`, and the reverse. */
  lemma StepExhausted(uk: seq<string>, ck: seq<string>, uo: seq<string>, co: seq<string>, ui: nat, ci: nat)
    requires Keyed(uk, uo) && Keyed(ck, co)
    requires ui <= |uk| && ci <= |ck| && (ui < |uk| || ci < |ck|)
    ensures ui == |uk| ==> Step(uk, ck, uo, co, ui, ci) == Emit([], [DiffEntry(Added, co[ci])], ui, ci + 1)
    ensures ci == |ck| ==> Step(uk, ck, uo, co, ui, ci) == Emit([DiffEntry(Removed, uo[ui])], [], ui + 1, ci)
  {
  }

  /**
   * On a mismatch the corrected-side window is searched first: when it holds
   * the user's token, the user cursor moves by one and the corrected cursor
   * past the match, whatever the user-side window holds.
   */
  lemma StepPrefersTarget(uk: seq<string>, ck: seq<string>, uo: seq<string>, co: seq<string>, ui: nat, ci: nat, m: nat)
    requires Keyed(uk, uo) && Keyed(ck, co)
    requires ui < |uk| && ci < m < WindowEnd(ci, |ck|) && ck[m] == uk[ui]
    ensures var e := Step(uk, ck, uo, co, ui, ci);
      e.userIndex == ui + 1 && ci + 1 <= e.correctedIndex <= m + 1 && e.user == [DiffEntry(Same, uo[ui])]
  {
  }

  /** `changed` is emitted only when the tokens differ and neither window holds a match. */
  lemma StepChangedOnlyWithoutMatch(uk: seq<string>, ck: seq<string>, uo: seq<string>, co: seq<string>, ui: nat, ci: nat)
    requires Keyed(uk, uo) && Keyed(ck, co)
    requires ui <= |uk| && ci <= |ck| && (ui < |uk| || ci < |ck|)
    ensures var e := Step(uk, ck, uo, co, ui, ci);
      e.user != [] && e.user[0].tag == Changed ==>
        ui < |uk| && ci < |ck| &&
        (forall m :: ci <= m < WindowEnd(ci, |ck|) ==> ck[m] != uk[ui]) &&
        (forall m :: ui <= m < WindowEnd(ui, |uk|) ==> uk[m] != ck[ci])
  {
    var e := Step(uk, ck, uo, co, ui, ci);
    StepExhausted(uk, ck, uo, co, ui, ci);
    if ui < |uk| && ci < |ck| {
      if uk[ui] == ck[ci] {
        StepSame(uk, ck, uo, co, ui, ci);
      } else {
        var k := Seek(uk[ui], ck, ci, WindowEnd(ci, |ck|));
        var k2 := Seek(ck[ci], uk, ui, WindowEnd(ui, |uk|));
        if k < WindowEnd(ci, |ck|) {
          StepTargetResync(uk, ck, uo, co, ui, ci, k);
        } else if k2 < WindowEnd(ui, |uk|) {
          StepSourceResync(uk, ck, uo, co, ui, ci, k2);
          if ui < k2 {
            assert e.user[0] == Tagged(Removed, uo[ui..k2])[0];
          }
        }
      }
    }
  }

  lemma SliceSplit(s: seq<string>, a: nat, b: nat)
    requires a <= b <= |s|
    ensures s[a..] == s[a..b] + s[b..]
  {
  }

  /** The three properties of a walk survive putting one piece after another. */
  lemma AppendSound(u1: seq<DiffEntry>, c1: seq<DiffEntry>, u2: seq<DiffEntry>, c2: seq<DiffEntry>)
    requires NoTag(u1, Added) && NoTag(c1, Removed) && Matched(Pairs(u1), Pairs(c1))
    requires NoTag(u2, Added) && NoTag(c2, Removed) && Matched(Pairs(u2), Pairs(c2))
    ensures Texts(u1 + u2) == Texts(u1) + Texts(u2) && Texts(c1 + c2) == Texts(c1) + Texts(c2)
    ensures NoTag(u1 + u2, Added) && NoTag(c1 + c2, Removed)
    ensures Matched(Pairs(u1 + u2), Pairs(c1 + c2))
  {
    NoTagAppend(u1, u2, Added);
    NoTagAppend(c1, c2, Removed);
    PairsAppend(u1, u2);
    PairsAppend(c1, c2);
    MatchedAppend(Pairs(u1), Pairs(c1), Pairs(u2), Pairs(c2));
    TextsAppend(u1, u2);
    TextsAppend(c1, c2);
  }

  /**
   * The loop run to completion from cursors `ui` and `ci`: the two tagged
   * sequences it appends from there on.
   */
  function Walk(uk: seq<string>, ck: seq<string>, uo: seq<string>, co: seq<string>, ui: nat, ci: nat)
    : (r: (seq<DiffEntry>, seq<DiffEntry>))
    requires Keyed(uk, uo) && Keyed(ck, co)
    requires ui <= |uk| && ci <= |ck|
    ensures Texts(r.0) == uo[ui..] && Texts(r.1) == co[ci..]
    ensures NoTag(r.0, Added) && NoTag(r.1, Removed)
    ensures Matched(Pairs(r.0), Pairs(r.1))
    decreases |uk| - ui + |ck| - ci
  {
    if ui == |uk| && ci == |ck| then ([], [])
    else
      var e := Step(uk, ck, uo, co, ui, ci);
      var rest := Walk(uk, ck, uo, co, e.userIndex, e.correctedIndex);
      StepTexts(uk, ck, uo, co, ui, ci);
      StepPlacement(uk, ck, uo, co, ui, ci);
      StepPairs(uk, ck, uo, co, ui, ci);
      AppendSound(e.user, e.corrected, rest.0, rest.1);
      SliceSplit(uo, ui, e.userIndex);
      SliceSplit(co, ci, e.correctedIndex);
      (e.user + rest.0, e.corrected + rest.1)
  }

  /** `createDiff(userText, correctedText)` as a function of the two sentences. */
  function DiffOf(userText: string, correctedText: string): (r: (seq<DiffEntry>, seq<DiffEntry>))
    ensures Texts(r.0) == Split(userText) && Texts(r.1) == Split(correctedText)
    ensures NoTag(r.0, Added) && NoTag(r.1, Removed)
    ensures Matched(Pairs(r.0), Pairs(r.1))
  {
    SplitLower(userText);
    SplitLower(correctedText);
    Walk(Split(Lower(userText)), Split(Lower(correctedText)), Split(userText), Split(correctedText), 0, 0)
  }

  /**
   * The lookahead `for` loop with its `found` flag and `break`: the first
   * position of `key` in the window of up to three keys starting at `from`.
   */
  method FindInWindow(key: string, keys: seq<string>, from: nat) returns (found: bool, index: nat)
    requires from <= |keys|
    ensures index == Seek(key, keys, from, WindowEnd(from, |keys|))
    ensures found <==> index < WindowEnd(from, |keys|)
  {
    var end := WindowEnd(from, |keys|);
    found, index := false, end;
    for i := from to end
      invariant forall m :: from <= m < i ==> keys[m] != key
    {
      if keys[i] == key {
        found, index := true, i;
        break;
      }
    }
  }

  /** The inner `for` loop that tags the skipped tokens `texts[from..upto]` one by one. */
  method AppendRun(diff: seq<DiffEntry>, t: Tag, texts: seq<string>, from: nat, upto: nat) returns (r: seq<DiffEntry>)
    requires from <= upto <= |texts|
    ensures r == diff + Tagged(t, texts[from..upto])
  {
    r := diff;
    for j := from to upto
      invariant r == diff + Tagged(t, texts[from..j])
    {
      r := r + [DiffEntry(t, texts[j])];
      assert texts[from..j + 1] == texts[from..j] + [texts[j]];
    }
  }

  lemma AppendAssoc(a: seq<DiffEntry>, b: seq<DiffEntry>, c: seq<DiffEntry>)
    ensures (a + b) + c == a + (b + c)
  {
  }

  /** One unfolding of `Walk`: a step, then the rest of the walk from where it leaves the cursors. */
  lemma WalkStep(uk: seq<string>, ck: seq<string>, uo: seq<string>, co: seq<string>, ui: nat, ci: nat)
    requires Keyed(uk, uo) && Keyed(ck, co)
    requires ui <= |uk| && ci <= |ck| && (ui < |uk| || ci < |ck|)
    ensures var e := Step(uk, ck, uo, co, ui, ci);
      var rest := Walk(uk, ck, uo, co, e.userIndex, e.correctedIndex);
      Walk(uk, ck, uo, co, ui, ci) == (e.user + rest.0, e.corrected + rest.1)
  {
  }

  /** `WalkStep` for a step already computed. */
  lemma WalkStepIs(uk: seq<string>, ck: seq<string>, uo: seq<string>, co: seq<string>, ui: nat, ci: nat, e: Emit)
    requires Keyed(uk, uo) && Keyed(ck, co)
    requires ui <= |uk| && ci <= |ck| && (ui < |uk| || ci < |ck|)
    requires e == Step(uk, ck, uo, co, ui, ci)
    ensures e.userIndex <= |uk| && e.correctedIndex <= |ck|
    ensures Walk(uk, ck, uo, co, ui, ci) ==
      (e.user + Walk(uk, ck, uo, co, e.userIndex, e.correctedIndex).0,
       e.corrected + Walk(uk, ck, uo, co, e.userIndex, e.correctedIndex).1)
  {
    WalkStep(uk, ck, uo, co, ui, ci);
  }

  /** The loop invariant of `Align` carried across one step. */
  lemma WalkAdvance(uk: seq<string>, ck: seq<string>, uo: seq<string>, co: seq<string>, ui: nat, ci: nat,
                    userDiff: seq<DiffEntry>, correctedDiff: seq<DiffEntry>, total: (seq<DiffEntry>, seq<DiffEntry>))
    requires Keyed(uk, uo) && Keyed(ck, co)
    requires ui <= |uk| && ci <= |ck| && (ui < |uk| || ci < |ck|)
    requires userDiff + Walk(uk, ck, uo, co, ui, ci).0 == total.0
    requires correctedDiff + Walk(uk, ck, uo, co, ui, ci).1 == total.1
    ensures var e := Step(uk, ck, uo, co, ui, ci);
      var rest := Walk(uk, ck, uo, co, e.userIndex, e.correctedIndex);
      (userDiff + e.user) + rest.0 == total.0 && (correctedDiff + e.corrected) + rest.1 == total.1
  {
    var e := Step(uk, ck, uo, co, ui, ci);
    var rest := Walk(uk, ck, uo, co, e.userIndex, e.correctedIndex);
    WalkStep(uk, ck, uo, co, ui, ci);
    AppendAssoc(userDiff, e.user, rest.0);
    AppendAssoc(correctedDiff, e.corrected, rest.1);
  }

  /**
   * The mismatch branch of the loop: search the corrected side's window for
   * the user's token, then the user side's window for the corrected token,
   * and otherwise mark both tokens changed. Returns what is appended to each
   * side and the new cursors.
   */
  method Resync(uk: seq<string>, ck: seq<string>, uo: seq<string>, co: seq<string>, ui: nat, ci: nat)
    returns (userPart: seq<DiffEntry>, correctedPart: seq<DiffEntry>, nextUser: nat, nextCorrected: nat)
    requires Keyed(uk, uo) && Keyed(ck, co)
    requires ui < |uk| && ci < |ck| && uk[ui] != ck[ci]
    ensures Emit(userPart, correctedPart, nextUser, nextCorrected) == Step(uk, ck, uo, co, ui, ci)
  {
    var found, i := FindInWindow(uk[ui], ck, ci);
    if found {
      correctedPart := AppendRun([], Added, co, ci, i);
      userPart := [DiffEntry(Same, uo[ui])];
      correctedPart := correctedPart + [DiffEntry(Same, co[i])];
      nextUser, nextCorrected := ui + 1, i + 1;
      StepTargetResync(uk, ck, uo, co, ui, ci, i);
      return;
    }
    var userFound, k := FindInWindow(ck[ci], uk, ui);
    if userFound {
      userPart := AppendRun([], Removed, uo, ui, k);
      userPart := userPart + [DiffEntry(Same, uo[k])];
      correctedPart := [DiffEntry(Same, co[ci])];
      nextUser, nextCorrected := k + 1, ci + 1;
      StepSourceResync(uk, ck, uo, co, ui, ci, k);
    } else {
      userPart := [DiffEntry(Changed, uo[ui])];
      correctedPart := [DiffEntry(Changed, co[ci])];
      nextUser, nextCorrected := ui + 1, ci + 1;
    }
  }

  /**
   * The loop of `createDiff` over the key sequences `uk`, `ck` and the
   * original-case tokens `uo`, `co`.
   */
  method Align(uk: seq<string>, ck: seq<string>, uo: seq<string>, co: seq<string>)
    returns (userDiff: seq<DiffEntry>, correctedDiff: seq<DiffEntry>)
    requires Keyed(uk, uo) && Keyed(ck, co)
    ensures (userDiff, correctedDiff) == Walk(uk, ck, uo, co, 0, 0)
  {
    userDiff, correctedDiff := [], [];
    var userIndex: nat, correctedIndex: nat := 0, 0;
    ghost var total := Walk(uk, ck, uo, co, 0, 0);

    while userIndex < |uk| || correctedIndex < |ck|
      invariant userIndex <= |uk| && correctedIndex <= |ck|
      invariant userDiff + Walk(uk, ck, uo, co, userIndex, correctedIndex).0 == total.0
      invariant correctedDiff + Walk(uk, ck, uo, co, userIndex, correctedIndex).1 == total.1
      decreases |uk| - userIndex + |ck| - correctedIndex
    {
      ghost var e := Step(uk, ck, uo, co, userIndex, correctedIndex);
      WalkAdvance(uk, ck, uo, co, userIndex, correctedIndex, userDiff, correctedDiff, total);
      ghost var u0, c0 := userDiff, correctedDiff;
      if userIndex >= |uk| {
        StepExhausted(uk, ck, uo, co, userIndex, correctedIndex);
        correctedDiff := correctedDiff + [DiffEntry(Added, co[correctedIndex])];
        correctedIndex := correctedIndex + 1;
      } else if correctedIndex >= |ck| {
        StepExhausted(uk, ck, uo, co, userIndex, correctedIndex);
        userDiff := userDiff + [DiffEntry(Removed, uo[userIndex])];
        userIndex := userIndex + 1;
      } else if uk[userIndex] == ck[correctedIndex] {
        StepSame(uk, ck, uo, co, userIndex, correctedIndex);
        userDiff := userDiff + [DiffEntry(Same, uo[userIndex])];
        correctedDiff := correctedDiff + [DiffEntry(Same, co[correctedIndex])];
        userIndex, correctedIndex := userIndex + 1, correctedIndex + 1;
      } else {
        var userPart, correctedPart, nextUser, nextCorrected := Resync(uk, ck, uo, co, userIndex, correctedIndex);
        userDiff, correctedDiff := userDiff + userPart, correctedDiff + correctedPart;
        userIndex, correctedIndex := nextUser, nextCorrected;
      }
      assert userDiff == u0 + e.user && correctedDiff == c0 + e.corrected;
      assert userIndex == e.userIndex && correctedIndex == e.correctedIndex;
    }
    assert userDiff + [] == userDiff && correctedDiff + [] == correctedDiff;
  }

  /**
   * `createDiff`: split both sentences on whitespace, keep a lower-cased copy
   * of each token stream for comparison, and align them.
   */
  method CreateDiff(userText: string, correctedText: string)
    returns (userDiff: seq<DiffEntry>, correctedDiff: seq<DiffEntry>)
    ensures (userDiff, correctedDiff) == DiffOf(userText, correctedText)
    ensures Texts(userDiff) == Split(userText) && Texts(correctedDiff) == Split(correctedText)
    ensures NoTag(userDiff, Added) && NoTag(correctedDiff, Removed)
    ensures Matched(Pairs(userDiff), Pairs(correctedDiff))
  {
    var userWords := Split(Lower(userText));
    var correctedWords := Split(Lower(correctedText));
    var originalUserWords := Split(userText);
    var originalCorrectedWords := Split(correctedText);
    SplitLower(userText);
    SplitLower(correctedText);
    userDiff, correctedDiff := Align(userWords, correctedWords, originalUserWords, originalCorrectedWords);
  }
}

module DiffProperties {
  import opened JsStrings
  import opened Diff

  /** Once the user's tokens are used up, every remaining corrected token is `added`. */
  lemma {:induction false} WalkUserExhausted(uk: seq<string>, ck: seq<string>, uo: seq<string>, co: seq<string>, ci: nat)
    requires Keyed(uk, uo) && Keyed(ck, co) && ci <= |ck|
    ensures Walk(uk, ck, uo, co, |uk|, ci) == ([], Tagged(Added, co[ci..]))
    decreases |ck| - ci
  {
    if ci < |ck| {
      WalkStep(uk, ck, uo, co, |uk|, ci);
      StepExhausted(uk, ck, uo, co, |uk|, ci);
      WalkUserExhausted(uk, ck, uo, co, ci + 1);
      assert Tagged(Added, co[ci..]) == [DiffEntry(Added, co[ci])] + Tagged(Added, co[ci + 1..]);
    }
  }

  /** Once the corrected tokens are used up, every remaining user token is `removed`. */
  lemma {:induction false} WalkCorrectedExhausted(uk: seq<string>, ck: seq<string>, uo: seq<string>, co: seq<string>, ui: nat)
    requires Keyed(uk, uo) && Keyed(ck, co) && ui <= |uk|
    ensures Walk(uk, ck, uo, co, ui, |ck|) == (Tagged(Removed, uo[ui..]), [])
    decreases |uk| - ui
  {
    if ui < |uk| {
      WalkStep(uk, ck, uo, co, ui, |ck|);
      StepExhausted(uk, ck, uo, co, ui, |ck|);
      WalkCorrectedExhausted(uk, ck, uo, co, ui + 1);
      assert Tagged(Removed, uo[ui..]) == [DiffEntry(Removed, uo[ui])] + Tagged(Removed, uo[ui + 1..]);
    }
  }

  /** Token streams that agree key for key are marked `same` throughout. */
  lemma {:induction false} WalkIdentical(keys: seq<string>, uo: seq<string>, co: seq<string>, i: nat)
    requires Keyed(keys, uo) && Keyed(keys, co) && i <= |keys|
    ensures Walk(keys, keys, uo, co, i, i) == (Tagged(Same, uo[i..]), Tagged(Same, co[i..]))
    decreases |keys| - i
  {
    if i < |keys| {
      StepSame(keys, keys, uo, co, i, i);
      WalkStepIs(keys, keys, uo, co, i, i, Emit([DiffEntry(Same, uo[i])], [DiffEntry(Same, co[i])], i + 1, i + 1));
      WalkIdentical(keys, uo, co, i + 1);
      TaggedFrom(Same, uo, i);
      TaggedFrom(Same, co, i);
    }
  }

  /** Two sentences equal up to ASCII case give a diff that is `same` everywhere, in the original case. */
  lemma DiffOfEqualIgnoringCase(userText: string, correctedText: string)
    requires Lower(userText) == Lower(correctedText)
    ensures DiffOf(userText, correctedText) == (Tagged(Same, Split(userText)), Tagged(Same, Split(correctedText)))
  {
    SplitLower(userText);
    SplitLower(correctedText);
    WalkIdentical(Split(Lower(userText)), Split(userText), Split(correctedText), 0);
    assert Split(userText)[0..] == Split(userText);
    assert Split(correctedText)[0..] == Split(correctedText);
  }

  /**
   * The diff view prints each side's texts with one space between neighbours; for a sentence
   * whose whitespace is single plain spaces, that reproduces the sentence exactly.
   */
  lemma RenderedDiffRestoresText(userText: string, correctedText: string)
    requires SingleSpaced(userText) && SingleSpaced(correctedText)
    ensures JoinSpaced(Texts(DiffOf(userText, correctedText).0)) == userText
    ensures JoinSpaced(Texts(DiffOf(userText, correctedText).1)) == correctedText
  {
    JoinSplit(userText);
    JoinSplit(correctedText);
  }

  /** The number of entries carrying tag `t`. */
  function Count(d: seq<DiffEntry>, t: Tag): (n: nat)
    ensures n <= |d|
    ensures n == 0 <==> NoTag(d, t)
  {
    if d == [] then 0 else (if d[0].tag == t then 1 else 0) + Count(d[1..], t)
  }

  /** Only paired entries carry `same` or `changed`, so counting them in the pairs loses none. */
  lemma {:induction false} CountInPairs(d: seq<DiffEntry>, t: Tag)
    requires t == Same || t == Changed
    ensures Count(Pairs(d), t) == Count(d, t)
  {
    if d != [] {
      CountInPairs(d[1..], t);
      var rest := Pairs(d[1..]);
      if IsPair(d[0]) {
        var q := [d[0]] + rest;
        assert Pairs(d) == q && q[0] == d[0] && q[1..] == rest;
      } else {
        assert Pairs(d) == [] + rest == rest;
      }
    }
  }

  lemma {:induction false} CountMatched(us: seq<DiffEntry>, cs: seq<DiffEntry>, t: Tag)
    requires Matched(us, cs)
    ensures Count(us, t) == Count(cs, t)
  {
    if us != [] {
      assert Matched(us[1..], cs[1..]) by {
        forall k | 0 <= k < |us[1..]|
          ensures us[1..][k].tag == cs[1..][k].tag
        {
          assert us[1..][k] == us[k + 1] && cs[1..][k] == cs[k + 1];
        }
        forall k | 0 <= k < |us[1..]| && us[1..][k].tag == Same
          ensures Lower(us[1..][k].text) == Lower(cs[1..][k].text)
        {
          assert us[1..][k] == us[k + 1] && cs[1..][k] == cs[k + 1];
        }
      }
      CountMatched(us[1..], cs[1..], t);
    }
  }

  /** Both sides of a diff hold equally many `same` tokens and equally many `changed` tokens. */
  lemma DiffOfBalanced(userText: string, correctedText: string)
    ensures var r := DiffOf(userText, correctedText);
      Count(r.0, Same) == Count(r.1, Same) && Count(r.0, Changed) == Count(r.1, Changed)
  {
    var r := DiffOf(userText, correctedText);
    CountInPairs(r.0, Same);
    CountInPairs(r.1, Same);
    CountInPairs(r.0, Changed);
    CountInPairs(r.1, Changed);
    CountMatched(Pairs(r.0), Pairs(r.1), Same);
    CountMatched(Pairs(r.0), Pairs(r.1), Changed);
  }

  /**
   * Every token of the user's sentence is accounted for on the user side:
   * `same` plus `changed` plus `removed` is the token count, and likewise
   * with `added` on the corrected side.
   */
  lemma {:induction false} CountTotal(d: seq<DiffEntry>)
    ensures Count(d, Same) + Count(d, Changed) + Count(d, Added) + Count(d, Removed) == |d|
  {
    if d != [] {
      CountTotal(d[1..]);
    }
  }
}

/**
 * Worked examples of the diff view: "i go school" against "I go to school",
 * and a pair of crossed sentences that shows the diff is not symmetric.
 */
module DiffExample {
  import opened JsStrings
  import opened Diff

  const UserTokens: seq<string> := ["i", "go", "school"]
  const CorrectedKeys: seq<string> := ["i", "go", "to", "school"]
  const CorrectedTokens: seq<string> := ["I", "go", "to", "school"]

  /** Matching tokens at both cursors: one `same` pair, then the rest of the walk. */
  lemma WalkSame(uk: seq<string>, ck: seq<string>, uo: seq<string>, co: seq<string>, ui: nat, ci: nat)
    requires Keyed(uk, uo) && Keyed(ck, co)
    requires ui < |uk| && ci < |ck| && uk[ui] == ck[ci]
    ensures Walk(uk, ck, uo, co, ui, ci) ==
      ([DiffEntry(Same, uo[ui])] + Walk(uk, ck, uo, co, ui + 1, ci + 1).0,
       [DiffEntry(Same, co[ci])] + Walk(uk, ck, uo, co, ui + 1, ci + 1).1)
  {
    WalkStep(uk, ck, uo, co, ui, ci);
  }

  lemma ConsOne(a: DiffEntry, b: DiffEntry)
    ensures [a] + [b] == [a, b]
  {
  }

  lemma ConsTwo(a: DiffEntry, b: DiffEntry, c: DiffEntry)
    ensures [a] + [b, c] == [a, b, c]
  {
  }

  lemma ConsThree(a: DiffEntry, b: DiffEntry, c: DiffEntry, d: DiffEntry)
    ensures [a] + [b, c, d] == [a, b, c, d]
  {
  }

  lemma ExampleKeyed()
    ensures Keyed(UserTokens, UserTokens) && Keyed(CorrectedKeys, CorrectedTokens)
  {
    assert Lower("I") == "i";
  }

  /** At "school" against "to": "school" is found one position ahead, so "to" is `added`. */
  lemma ExampleFromSchool()
    ensures Keyed(UserTokens, UserTokens) && Keyed(CorrectedKeys, CorrectedTokens) &&
      Walk(UserTokens, CorrectedKeys, UserTokens, CorrectedTokens, 2, 2)
      == ([DiffEntry(Same, UserTokens[2])],
          [DiffEntry(Added, CorrectedTokens[2]), DiffEntry(Same, CorrectedTokens[3])])
  {
    ExampleKeyed();
    var uk, ck, uo, co := UserTokens, CorrectedKeys, UserTokens, CorrectedTokens;
    assert Seek(uk[2], ck, 2, 4) == 3;
    StepTargetResync(uk, ck, uo, co, 2, 2, 3);
    WalkStepIs(uk, ck, uo, co, 2, 2,
      Emit([DiffEntry(Same, uo[2])], Tagged(Added, co[2..3]) + [DiffEntry(Same, co[3])], 3, 4));
    assert Walk(uk, ck, uo, co, 3, 4) == ([], []);
    assert co[2..3] == [co[2]];
    assert Tagged(Added, [co[2]]) == [DiffEntry(Added, co[2])];
    ghost var x, y, z := DiffEntry(Same, uo[2]), DiffEntry(Added, co[2]), DiffEntry(Same, co[3]);
    assert [x] + [] == [x];
    assert [y] + [z] + [] == [y, z];
  }

  lemma ExampleFromGo()
    ensures Keyed(UserTokens, UserTokens) && Keyed(CorrectedKeys, CorrectedTokens) &&
      Walk(UserTokens, CorrectedKeys, UserTokens, CorrectedTokens, 1, 1)
      == ([DiffEntry(Same, UserTokens[1]), DiffEntry(Same, UserTokens[2])],
          [DiffEntry(Same, CorrectedTokens[1]), DiffEntry(Added, CorrectedTokens[2]), DiffEntry(Same, CorrectedTokens[3])])
  {
    ExampleKeyed();
    ExampleFromSchool();
    WalkSame(UserTokens, CorrectedKeys, UserTokens, CorrectedTokens, 1, 1);
    var uo, co := UserTokens, CorrectedTokens;
    ConsOne(DiffEntry(Same, uo[1]), DiffEntry(Same, uo[2]));
    ConsTwo(DiffEntry(Same, co[1]), DiffEntry(Added, co[2]), DiffEntry(Same, co[3]));
  }

  /** The walk over the example's tokens, position by position. */
  lemma ExampleWalk()
    ensures Keyed(UserTokens, UserTokens) && Keyed(CorrectedKeys, CorrectedTokens) &&
      Walk(UserTokens, CorrectedKeys, UserTokens, CorrectedTokens, 0, 0)
      == ([DiffEntry(Same, UserTokens[0]), DiffEntry(Same, UserTokens[1]), DiffEntry(Same, UserTokens[2])],
          [DiffEntry(Same, CorrectedTokens[0]), DiffEntry(Same, CorrectedTokens[1]),
           DiffEntry(Added, CorrectedTokens[2]), DiffEntry(Same, CorrectedTokens[3])])
  {
    ExampleKeyed();
    ExampleFromGo();
    WalkSame(UserTokens, CorrectedKeys, UserTokens, CorrectedTokens, 0, 0);
    var uo, co := UserTokens, CorrectedTokens;
    ConsTwo(DiffEntry(Same, uo[0]), DiffEntry(Same, uo[1]), DiffEntry(Same, uo[2]));
    ConsThree(DiffEntry(Same, co[0]), DiffEntry(Same, co[1]), DiffEntry(Added, co[2]), DiffEntry(Same, co[3]));
  }

  lemma ExampleUserLower()
    ensures Lower("i go school") == "i go school"
  {
    LowerFixed("i go school");
  }

  lemma ExampleCorrectedLower()
    ensures Lower("I go to school") == "i go to school"
  {
    LowerFixed(" go to school");
    LowerAppend("I", " go to school");
    assert "I" + " go to school" == "I go to school";
    assert Lower("I") == "i";
  }

  lemma ExampleUserTokens()
    ensures Split("i go school") == UserTokens
  {
    assert JoinSpaced(UserTokens) == "i go school";
    SplitJoin(UserTokens);
  }

  lemma ExampleCorrectedTokens()
    ensures Split("I go to school") == CorrectedTokens
  {
    assert JoinSpaced(CorrectedTokens) == "I go to school";
    SplitJoin(CorrectedTokens);
  }

  lemma ExampleCorrectedKeys()
    ensures Split("i go to school") == CorrectedKeys
  {
    assert JoinSpaced(CorrectedKeys) == "i go to school";
    SplitJoin(CorrectedKeys);
  }

  /**
   * `createDiff("i go school", "I go to school")`: every user token is `same`,
   * and on the corrected side "to" is `added` while "I" keeps its case.
   */
  lemma WorkedExample()
    ensures DiffOf("i go school", "I go to school") ==
      ([DiffEntry(Same, "i"), DiffEntry(Same, "go"), DiffEntry(Same, "school")],
       [DiffEntry(Same, "I"), DiffEntry(Same, "go"), DiffEntry(Added, "to"), DiffEntry(Same, "school")])
  {
    ExampleUserLower();
    ExampleCorrectedLower();
    ExampleUserTokens();
    ExampleCorrectedTokens();
    ExampleCorrectedKeys();
    ExampleWalk();
  }

  /** The first step on two distinct lower-case words in crossed order: `x` is found one token ahead. */
  lemma CrossedFirstStep(x: string, y: string)
    requires x != y && Lower(x) == x && Lower(y) == y
    ensures Keyed([x, y], [x, y]) && Keyed([y, x], [y, x])
    ensures Step([x, y], [y, x], [x, y], [y, x], 0, 0)
      == Emit([DiffEntry(Same, x)], [DiffEntry(Added, y), DiffEntry(Same, x)], 1, 2)
  {
    var uk, ck := [x, y], [y, x];
    assert Seek(uk[0], ck, 0, WindowEnd(0, 2)) == 1;
    StepTargetResync(uk, ck, uk, ck, 0, 0, 1);
    assert ck[0..1] == [y];
  }

  /** On crossed words the corrected side runs out first, so the user's second word is removed. */
  lemma CrossedWalk(x: string, y: string)
    requires x != y && Lower(x) == x && Lower(y) == y
    ensures Keyed([x, y], [x, y]) && Keyed([y, x], [y, x])
    ensures Walk([x, y], [y, x], [x, y], [y, x], 0, 0) ==
      ([DiffEntry(Same, x), DiffEntry(Removed, y)], [DiffEntry(Added, y), DiffEntry(Same, x)])
  {
    var uk, ck := [x, y], [y, x];
    CrossedFirstStep(x, y);
    WalkStepIs(uk, ck, uk, ck, 0, 0, Emit([DiffEntry(Same, x)], [DiffEntry(Added, y), DiffEntry(Same, x)], 1, 2));
    StepExhausted(uk, ck, uk, ck, 1, 2);
    WalkStepIs(uk, ck, uk, ck, 1, 2, Emit([DiffEntry(Removed, y)], [], 2, 2));
    var rest := Walk(uk, ck, uk, ck, 2, 2);
    assert rest.0 == [] && rest.1 == [];
    assert [DiffEntry(Removed, y)] + rest.0 == [DiffEntry(Removed, y)] && [] + rest.1 == [];
    assert Walk(uk, ck, uk, ck, 1, 2) == ([DiffEntry(Removed, y)], []);
    assert [DiffEntry(Same, x)] + [DiffEntry(Removed, y)] == [DiffEntry(Same, x), DiffEntry(Removed, y)];
    assert [DiffEntry(Added, y), DiffEntry(Same, x)] + [] == [DiffEntry(Added, y), DiffEntry(Same, x)];
  }

  /** The diff of two single-spaced lower-case sentences whose two words are crossed. */
  lemma CrossedDiff(u: string, c: string, x: string, y: string)
    requires Lower(u) == u && Lower(c) == c && Split(u) == [x, y] && Split(c) == [y, x]
    requires x != y && Lower(x) == x && Lower(y) == y
    ensures DiffOf(u, c) ==
      ([DiffEntry(Same, x), DiffEntry(Removed, y)], [DiffEntry(Added, y), DiffEntry(Same, x)])
  {
    CrossedWalk(x, y);
  }

  lemma CrossedTokens()
    ensures Split("a b") == ["a", "b"] && Split("b a") == ["b", "a"]
  {
    assert JoinSpaced(["a", "b"]) == "a b";
    SplitJoin(["a", "b"]);
    assert JoinSpaced(["b", "a"]) == "b a";
    SplitJoin(["b", "a"]);
  }

  /**
   * The diff is not symmetric: swapping "a b" and "b a" does not mirror the
   * result. One way round the first corrected entry is `added`; the other way
   * round the first user entry is `same`, not `removed`.
   */
  lemma SwapIsNotMirror()
    ensures DiffOf("a b", "b a") ==
      ([DiffEntry(Same, "a"), DiffEntry(Removed, "b")], [DiffEntry(Added, "b"), DiffEntry(Same, "a")])
    ensures DiffOf("b a", "a b") ==
      ([DiffEntry(Same, "b"), DiffEntry(Removed, "a")], [DiffEntry(Added, "a"), DiffEntry(Same, "b")])
    ensures DiffOf("a b", "b a").1[0].tag == Added && DiffOf("b a", "a b").0[0].tag == Same
  {
    LowerFixed("a b");
    LowerFixed("b a");
    LowerFixed("a");
    LowerFixed("b");
    CrossedTokens();
    CrossedDiff("a b", "b a", "a", "b");
    CrossedDiff("b a", "a b", "b", "a");
  }
}
