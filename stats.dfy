/**
 * The dashboard's summary figures (`calculateStats` in
 * frontend/src/components/Dashboard.tsx): how many corrections there are,
 * how many fall in the last seven days, which tag is used most, and an
 * "improvement rate" derived from the two counts.
 */
module Stats {
  /** One saved correction (`CorrectionHistory`); the timestamp is in milliseconds. */
  datatype HistoryItem = HistoryItem(
    id: string,
    date: string,
    korean: string,
    userEnglish: string,
    correctedSentence: string,
    tags: seq<string>,
    timestamp: int)

  datatype Summary = Summary(totalCorrections: nat, thisWeek: nat, mostUsedCategory: string, improvementRate: nat)

  /** `7 * 24 * 60 * 60 * 1000`: one week in milliseconds. */
  const WeekMillis: int := 604800000

  /** The initial value of the most-used reduce. */
  const DefaultCategory: string := "일상대화"

  /**
   * The tag-frequency table built by the counting `reduce`: the keys in the
   * order they were first inserted (the order `Object.keys` reports them) and
   * the count of each.
   */
  datatype Table = Table(keys: seq<string>, count: map<string, nat>)

  predicate Distinct(s: seq<string>) {
    forall i, j :: 0 <= i < j < |s| ==> s[i] != s[j]
  }

  /** The table's key order and its map agree, and every key has been counted at least once. */
  ghost predicate WellFormed(t: Table) {
    && Distinct(t.keys)
    && (forall k :: k in t.count <==> k in t.keys)
    && (forall k :: k in t.count ==> t.count[k] >= 1)
  }

  /** `acc[cat] = (acc[cat] || 0) + 1`: a new key is appended, a known one incremented. */
  function Bump(t: Table, cat: string): (r: Table)
    requires WellFormed(t)
    ensures WellFormed(r)
    ensures r.count == t.count[cat := if cat in t.count then t.count[cat] + 1 else 1]
    ensures r.keys == if cat in t.count then t.keys else t.keys + [cat]
  {
    if cat in t.count then Table(t.keys, t.count[cat := t.count[cat] + 1])
    else Table(t.keys + [cat], t.count[cat := 1])
  }

  /** The counting `reduce` over the categories, from the table `t` on. */
  function TallyFrom(t: Table, cats: seq<string>): (r: Table)
    requires WellFormed(t)
    ensures WellFormed(r)
    decreases |cats|
  {
    if cats == [] then t else TallyFrom(Bump(t, cats[0]), cats[1..])
  }

  function Tally(cats: seq<string>): (r: Table)
    ensures WellFormed(r)
  {
    TallyFrom(Table([], map[]), cats)
  }

  /** `historyData.flatMap(item => item.tags)`. */
  function AllTags(history: seq<HistoryItem>): (r: seq<string>)
    ensures forall k :: k in r <==> exists i :: 0 <= i < |history| && k in history[i].tags
  {
    if history == [] then []
    else
      var rest := AllTags(history[1..]);
      assert forall i :: 1 <= i < |history| ==> history[i] == history[1..][i - 1];
      history[0].tags + rest
  }

  /** Tallying from `t` counts each category exactly as often as it occurs, on top of what `t` already held. */
  lemma {:induction false} TallyFromCounts(t: Table, cats: seq<string>)
    requires WellFormed(t)
    ensures var r := TallyFrom(t, cats);
      forall k :: (k in r.count <==> k in t.count || k in cats) &&
        (k in r.count ==> r.count[k] == (if k in t.count then t.count[k] else 0) + multiset(cats)[k])
    decreases |cats|
  {
    if cats != [] {
      var c := cats[0];
      var b := Bump(t, c);
      TallyFromCounts(b, cats[1..]);
      CategoriesCons(cats);
      forall k {
        BumpAt(t, c, k);
      }
    }
  }

  lemma BumpAt(t: Table, c: string, k: string)
    requires WellFormed(t)
    ensures var b := Bump(t, c);
      (k in b.count <==> k in t.count || k == c) &&
      (k in b.count ==> b.count[k] == (if k in t.count then t.count[k] else 0) + (if k == c then 1 else 0))
  {
  }

  lemma CategoriesCons(cats: seq<string>)
    requires cats != []
    ensures multiset(cats) == multiset{cats[0]} + multiset(cats[1..])
    ensures forall k :: k in cats <==> k == cats[0] || k in cats[1..]
  {
    assert cats == [cats[0]] + cats[1..];
  }

  /** The frequency table of a list of categories: its keys are exactly the categories and each count is the number of occurrences. */
  lemma TallyCounts(cats: seq<string>)
    ensures var r := Tally(cats);
      (forall k :: k in r.count <==> k in cats) &&
      (forall k :: k in r.keys <==> k in cats) &&
      (forall k :: k in r.count ==> r.count[k] == multiset(cats)[k])
  {
    TallyFromCounts(Table([], map[]), cats);
  }

  /** `categoryCount[a] > categoryCount[b]`, where a key that is not in the table reads as `undefined`, which compares false. */
  predicate Beats(count: map<string, nat>, a: string, b: string) {
    a in count && b in count && count[a] > count[b]
  }

  /** The step of the most-used reduce: keep the current winner only when it is strictly ahead. */
  function Pick(count: map<string, nat>, a: string, b: string): (r: string)
    ensures r == a || r == b
    ensures Beats(count, a, b) ==> r == a
    ensures !Beats(count, a, b) ==> r == b
  {
    if Beats(count, a, b) then a else b
  }

  /** `Object.keys(categoryCount).reduce(pick, acc)` over the remaining keys. */
  function MostUsedFrom(count: map<string, nat>, acc: string, keys: seq<string>): (r: string)
    ensures keys == [] ==> r == acc
    ensures r == acc || r in keys
    decreases |keys|
  {
    if keys == [] then acc else MostUsedFrom(count, Pick(count, acc, keys[0]), keys[1..])
  }

  function MostUsed(t: Table): (r: string)
    ensures t.keys == [] ==> r == DefaultCategory
  {
    MostUsedFrom(t.count, DefaultCategory, t.keys)
  }

  /** `r` is the last key whose count is the largest of all the counts. */
  ghost predicate LastMaximal(count: map<string, nat>, keys: seq<string>, r: string)
    requires forall k :: k in keys ==> k in count
  {
    exists p :: 0 <= p < |keys| && keys[p] == r &&
      (forall j :: 0 <= j < |keys| ==> count[keys[j]] <= count[r]) &&
      (forall j :: p < j < |keys| ==> count[keys[j]] < count[r])
  }

  /**
   * The invariant of the most-used reduce after `i` keys: either the initial
   * value is still held and it is strictly ahead of every key seen (it is a
   * key itself, so this can only last until it is reached), or the winner is
   * the last of the keys seen with the largest count.
   */
  ghost predicate ReduceState(count: map<string, nat>, init: string, keys: seq<string>, i: nat, acc: string)
    requires i <= |keys| && forall k :: k in keys ==> k in count
  {
    || (i == 0 && acc == init)
    || (acc == init && init in count && forall j :: 0 <= j < i ==> count[keys[j]] < count[init])
    || (i > 0 && LastMaximal(count, keys[..i], acc))
  }

  lemma ReduceStateStep(count: map<string, nat>, init: string, keys: seq<string>, i: nat, acc: string)
    requires i < |keys| && forall k :: k in keys ==> k in count
    requires ReduceState(count, init, keys, i, acc)
    requires acc == init || acc in keys[..i]
    ensures ReduceState(count, init, keys, i + 1, Pick(count, acc, keys[i]))
    ensures var next := Pick(count, acc, keys[i]); next == init || next in keys[..i + 1]
  {
    PrefixGrows(keys, i);
    if Beats(count, acc, keys[i]) {
      ReduceStateKeep(count, init, keys, i, acc);
    } else {
      ReduceStateTake(count, init, keys, i, acc);
    }
  }

  lemma PrefixGrows(keys: seq<string>, i: nat)
    requires i < |keys|
    ensures keys[..i + 1] == keys[..i] + [keys[i]]
    ensures forall j :: 0 <= j < i ==> keys[..i + 1][j] == keys[..i][j]
  {
  }

  /** The winner so far is strictly ahead of the next key and stays. */
  lemma ReduceStateKeep(count: map<string, nat>, init: string, keys: seq<string>, i: nat, acc: string)
    requires i < |keys| && forall k :: k in keys ==> k in count
    requires ReduceState(count, init, keys, i, acc) && Beats(count, acc, keys[i])
    requires keys[..i + 1] == keys[..i] + [keys[i]]
    ensures ReduceState(count, init, keys, i + 1, acc)
  {
    var pre, post := keys[..i], keys[..i + 1];
    if i > 0 && LastMaximal(count, pre, acc) {
      var p :| 0 <= p < |pre| && pre[p] == acc &&
        (forall j :: 0 <= j < |pre| ==> count[pre[j]] <= count[acc]) &&
        (forall j :: p < j < |pre| ==> count[pre[j]] < count[acc]);
      assert post[p] == acc;
      assert forall j :: 0 <= j < i ==> post[j] == pre[j];
      assert LastMaximal(count, post, acc);
    } else {
      assert acc == init && init in count;
      assert forall j :: 0 <= j < i ==> post[j] == pre[j];
    }
  }

  /** The next key is at least level with the winner so far and takes over. */
  lemma ReduceStateTake(count: map<string, nat>, init: string, keys: seq<string>, i: nat, acc: string)
    requires i < |keys| && forall k :: k in keys ==> k in count
    requires ReduceState(count, init, keys, i, acc) && !Beats(count, acc, keys[i])
    requires keys[..i + 1] == keys[..i] + [keys[i]]
    ensures ReduceState(count, init, keys, i + 1, keys[i])
  {
    var b := keys[i];
    var pre, post := keys[..i], keys[..i + 1];
    assert post[i] == b;
    assert forall j :: 0 <= j < i ==> post[j] == pre[j];
    if i > 0 && LastMaximal(count, pre, acc) {
      assert acc in count;
      assert count[acc] <= count[b];
      assert forall j :: 0 <= j < i ==> count[pre[j]] <= count[acc];
    } else if acc == init && init in count {
      assert count[acc] <= count[b];
    }
    assert forall j :: 0 <= j < |post| ==> count[post[j]] <= count[b];
    assert LastMaximal(count, post, b) by {
      assert 0 <= i < |post| && post[i] == b;
    }
  }

  lemma {:induction false} MostUsedFromState(count: map<string, nat>, init: string, keys: seq<string>, i: nat, acc: string)
    requires i <= |keys| && forall k :: k in keys ==> k in count
    requires ReduceState(count, init, keys, i, acc)
    requires acc == init || acc in keys[..i]
    ensures ReduceState(count, init, keys, |keys|, MostUsedFrom(count, acc, keys[i..]))
    decreases |keys| - i
  {
    if i < |keys| {
      ReduceStateStep(count, init, keys, i, acc);
      assert keys[i..][1..] == keys[i + 1..];
      MostUsedFromState(count, init, keys, i + 1, Pick(count, acc, keys[i]));
    } else {
      assert keys[i..] == [];
    }
  }

  /**
   * With at least one tag, the most-used category is the last key, in
   * insertion order, whose count is the largest; so on a tie the later key
   * wins. With no tags it is the default.
   */
  lemma MostUsedIsLastMaximal(t: Table)
    requires WellFormed(t)
    ensures t.keys == [] ==> MostUsed(t) == DefaultCategory
    ensures t.keys != [] ==> LastMaximal(t.count, t.keys, MostUsed(t))
  {
    if t.keys != [] {
      MostUsedFromState(t.count, DefaultCategory, t.keys, 0, DefaultCategory);
      assert t.keys[0..] == t.keys;
      assert t.keys[..|t.keys|] == t.keys;
      var r := MostUsed(t);
      if r == DefaultCategory && DefaultCategory in t.count {
        var q :| 0 <= q < |t.keys| && t.keys[q] == DefaultCategory;
        assert t.count[t.keys[q]] == t.count[DefaultCategory];
      }
    }
  }

  /** The items whose timestamp is no earlier than one week before `now`. */
  function CountSince(history: seq<HistoryItem>, since: int): (n: nat)
    ensures n <= |history|
    ensures n == |history| <==> forall i :: 0 <= i < |history| ==> history[i].timestamp >= since
    ensures n == 0 <==> forall i :: 0 <= i < |history| ==> history[i].timestamp < since
  {
    if history == [] then 0
    else
      var rest := CountSince(history[1..], since);
      assert forall i :: 1 <= i < |history| ==> history[i] == history[1..][i - 1];
      (if history[0].timestamp >= since then 1 else 0) + rest
  }

  /** Counting the recent items of two histories separately and adding gives the count of the joined history. */
  lemma {:induction false} CountSinceAppend(a: seq<HistoryItem>, b: seq<HistoryItem>, since: int)
    ensures CountSince(a + b, since) == CountSince(a, since) + CountSince(b, since)
  {
    if a == [] {
      assert a + b == b;
    } else {
      assert (a + b)[0] == a[0] && (a + b)[1..] == a[1..] + b;
      CountSinceAppend(a[1..], b, since);
    }
  }

  /** Moving the cut-off later can only lower the count. */
  lemma {:induction false} CountSinceMonotone(history: seq<HistoryItem>, early: int, late: int)
    requires early <= late
    ensures CountSince(history, late) <= CountSince(history, early)
  {
    if history != [] {
      CountSinceMonotone(history[1..], early, late);
    }
  }

  /** `Math.min(95, Math.floor(thisWeek / Math.max(1, total) * 100))`, in integer arithmetic. */
  function ImprovementRate(thisWeek: nat, total: nat): (r: nat)
    requires thisWeek <= total
    ensures r <= 95
    ensures total == 0 ==> r == 0
    ensures r < 95 ==> r * (if total == 0 then 1 else total) <= thisWeek * 100 < (r + 1) * (if total == 0 then 1 else total)
  {
    var d := if total == 0 then 1 else total;
    var q := thisWeek * 100 / d;
    if q < 95 then q else 95
  }

  /** `calculateStats(historyData)` at time `now`. */
  function CalculateStats(history: seq<HistoryItem>, now: int): (s: Summary)
    ensures s.totalCorrections == |history|
    ensures s.thisWeek == CountSince(history, now - WeekMillis) && s.thisWeek <= s.totalCorrections
    ensures s.improvementRate == ImprovementRate(s.thisWeek, s.totalCorrections) && s.improvementRate <= 95
    ensures s.mostUsedCategory == MostUsed(Tally(AllTags(history)))
  {
    var week := CountSince(history, now - WeekMillis);
    var table := Tally(AllTags(history));
    Summary(|history|, week, MostUsed(table), ImprovementRate(week, |history|))
  }

  /** A last-maximal key of a table of tag counts is a tag used at least as often as any other. */
  lemma LastMaximalUses(t: Table, tags: seq<string>, r: string)
    requires WellFormed(t)
    requires forall k :: k in t.keys <==> k in tags
    requires forall k :: k in t.count ==> t.count[k] == multiset(tags)[k]
    requires LastMaximal(t.count, t.keys, r)
    ensures r in tags
    ensures forall k :: k in tags ==> multiset(tags)[k] <= multiset(tags)[r]
  {
    var p :| 0 <= p < |t.keys| && t.keys[p] == r &&
      (forall j :: 0 <= j < |t.keys| ==> t.count[t.keys[j]] <= t.count[r]) &&
      (forall j :: p < j < |t.keys| ==> t.count[t.keys[j]] < t.count[r]);
    forall k | k in tags
      ensures multiset(tags)[k] <= multiset(tags)[r]
    {
      var q :| 0 <= q < |t.keys| && t.keys[q] == k;
      assert t.count[t.keys[q]] <= t.count[r];
    }
  }

  /**
   * The most-used category reported by the dashboard is the default when no
   * item has a tag; otherwise it is a tag with the largest number of uses,
   * and no tag first used later has as many.
   */
  lemma MostUsedCategoryCounts(history: seq<HistoryItem>, now: int)
    ensures var s := CalculateStats(history, now);
      var tags := AllTags(history);
      var t := Tally(tags);
      (tags == [] ==> s.mostUsedCategory == DefaultCategory) &&
      (tags != [] ==>
        s.mostUsedCategory in tags &&
        (forall k :: k in tags ==> multiset(tags)[k] <= multiset(tags)[s.mostUsedCategory]) &&
        LastMaximal(t.count, t.keys, s.mostUsedCategory))
  {
    var tags := AllTags(history);
    var t := Tally(tags);
    assert CalculateStats(history, now).mostUsedCategory == MostUsed(t);
    TallyCounts(tags);
    MostUsedIsLastMaximal(t);
    if tags == [] {
      assert t == Table([], map[]);
    } else {
      assert tags[0] in t.keys;
      LastMaximalUses(t, tags, MostUsed(t));
    }
  }
}
