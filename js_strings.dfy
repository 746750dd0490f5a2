/**
 * The few JavaScript string operations the corrector and the diff rely on,
 * written out over `seq<char>`: the `\s` character class, ASCII lower-casing,
 * `split(/\s+/)`, `trim()`, `includes`, `replace(str, str)` (first occurrence),
 * `replace(/\bword\b/gi, str)` (every case-insensitive whole word) and the
 * single-space join that the diff view renders.
 */
module JsStrings {

  /** The characters JavaScript's `\s` matches: WhiteSpace and LineTerminator. */
  predicate IsSpace(c: char) {
    || c == ' ' || c == '\t' || c == '\n' || c == '\r' || c == '\U{B}' || c == '\U{C}'
    || c == '\U{A0}' || c == '\U{1680}' || ('\U{2000}' <= c <= '\U{200A}')
    || c == '\U{2028}' || c == '\U{2029}' || c == '\U{202F}' || c == '\U{205F}'
    || c == '\U{3000}' || c == '\U{FEFF}'
  }

  /** The characters of `\w` (and hence of `\b`) in a non-Unicode regular expression. */
  predicate IsWordChar(c: char) {
    ('a' <= c <= 'z') || ('A' <= c <= 'Z') || ('0' <= c <= '9') || c == '_'
  }

  function LowerChar(c: char): (d: char)
    ensures 'A' <= c <= 'Z' ==> d as int == c as int + 32
    ensures !('A' <= c <= 'Z') ==> d == c
  {
    if 'A' <= c <= 'Z' then (c as int + 32) as char else c
  }

  /** `toLowerCase()`, restricted to the ASCII letters. */
  function Lower(s: string): (r: string)
    ensures |r| == |s|
    ensures forall i :: 0 <= i < |s| ==> r[i] == LowerChar(s[i])
  {
    seq(|s|, i requires 0 <= i < |s| => LowerChar(s[i]))
  }

  function LowerAll(ts: seq<string>): (r: seq<string>)
    ensures |r| == |ts|
    ensures forall i :: 0 <= i < |ts| ==> r[i] == Lower(ts[i])
  {
    seq(|ts|, i requires 0 <= i < |ts| => Lower(ts[i]))
  }

  predicate NoSpace(t: string) {
    forall i :: 0 <= i < |t| ==> !IsSpace(t[i])
  }

  /** The first whitespace position at or after `from`, or `|s|`. */
  function FirstSpace(s: string, from: nat): (k: nat)
    requires from <= |s|
    ensures from <= k <= |s|
    ensures forall m :: from <= m < k ==> !IsSpace(s[m])
    ensures k < |s| ==> IsSpace(s[k])
    decreases |s| - from
  {
    if from == |s| || IsSpace(s[from]) then from else FirstSpace(s, from + 1)
  }

  /** The first non-whitespace position at or after `from`, or `|s|`. */
  function SkipSpaces(s: string, from: nat): (k: nat)
    requires from <= |s|
    ensures from <= k <= |s|
    ensures forall m :: from <= m < k ==> IsSpace(s[m])
    ensures k < |s| ==> !IsSpace(s[k])
    decreases |s| - from
  {
    if from == |s| || !IsSpace(s[from]) then from else SkipSpaces(s, from + 1)
  }

  /**
   * `s.split(/\s+/)`: the fields between maximal runs of whitespace. A leading
   * or trailing run yields an empty first or last field, and `""` yields `[""]`.
   */
  function Split(s: string): (r: seq<string>)
    ensures |r| >= 1
    decreases |s|
  {
    var i := FirstSpace(s, 0);
    if i == |s| then [s]
    else
      var j := SkipSpaces(s, i);
      [s[..i]] + Split(s[j..])
  }

  /** The texts joined with one space between neighbours, as the diff view renders them. */
  function JoinSpaced(ts: seq<string>): string
  {
    if |ts| == 0 then ""
    else if |ts| == 1 then ts[0]
    else ts[0] + " " + JoinSpaced(ts[1..])
  }

  /** Every whitespace character is a plain space and no two are adjacent. */
  predicate SingleSpaced(s: string) {
    forall i :: 0 <= i < |s| && IsSpace(s[i]) ==> s[i] == ' ' && (i + 1 == |s| || !IsSpace(s[i + 1]))
  }

  lemma {:induction false} SplitFieldsHaveNoSpace(s: string)
    ensures forall k :: 0 <= k < |Split(s)| ==> NoSpace(Split(s)[k])
    decreases |s|
  {
    var i := FirstSpace(s, 0);
    if i < |s| {
      var j := SkipSpaces(s, i);
      SplitFieldsHaveNoSpace(s[j..]);
    }
  }

  /** A string without ASCII capitals is its own lower-case form. */
  lemma LowerFixed(s: string)
    requires forall i :: 0 <= i < |s| ==> !('A' <= s[i] <= 'Z')
    ensures Lower(s) == s
  {
  }

  lemma LowerAppend(a: string, b: string)
    ensures Lower(a + b) == Lower(a) + Lower(b)
  {
  }

  lemma {:induction false} SpaceScanIgnoresCase(s: string, from: nat)
    requires from <= |s|
    ensures FirstSpace(Lower(s), from) == FirstSpace(s, from)
    ensures SkipSpaces(Lower(s), from) == SkipSpaces(s, from)
    decreases |s| - from
  {
    if from < |s| {
      assert IsSpace(Lower(s)[from]) == IsSpace(s[from]);
      SpaceScanIgnoresCase(s, from + 1);
    }
  }

  /**
   * Lower-casing and splitting commute: the lower-cased copy splits into the
   * lower-cased fields of the original, so the two have the same field count.
   */
  lemma {:induction false} SplitLower(s: string)
    ensures Split(Lower(s)) == LowerAll(Split(s))
    decreases |s|
  {
    var i := FirstSpace(s, 0);
    if i < |s| {
      var j := SkipSpaces(s, i);
      SplitStepLower(s, i, j);
      SplitLower(s[j..]);
      LowerAllCons(s[..i], Split(s[j..]));
    } else {
      SplitWholeLower(s);
      LowerAllCons(s, []);
    }
  }

  /** One step of `split` on the lower-cased copy, in terms of the original's pieces. */
  lemma SplitStepLower(s: string, i: nat, j: nat)
    requires i == FirstSpace(s, 0) < |s| && j == SkipSpaces(s, i)
    ensures Split(s) == [s[..i]] + Split(s[j..])
    ensures Split(Lower(s)) == [Lower(s[..i])] + Split(Lower(s[j..]))
  {
    var l := Lower(s);
    SpaceScanIgnoresCase(s, 0);
    SpaceScanIgnoresCase(s, i);
    SplitStepAt(s, i, j);
    SplitStepAt(l, i, j);
    LowerPieces(s, i, j);
  }

  /** With no whitespace, `split` gives the whole string, lower-cased or not. */
  lemma SplitWholeLower(s: string)
    requires FirstSpace(s, 0) == |s|
    ensures Split(s) == [s] && Split(Lower(s)) == [Lower(s)]
  {
    SpaceScanIgnoresCase(s, 0);
  }

  lemma LowerPieces(s: string, i: nat, j: nat)
    requires i <= j <= |s|
    ensures Lower(s)[..i] == Lower(s[..i]) && Lower(s)[j..] == Lower(s[j..])
  {
  }

  lemma SplitStepAt(s: string, i: nat, j: nat)
    requires i == FirstSpace(s, 0) < |s| && j == SkipSpaces(s, i)
    ensures Split(s) == [s[..i]] + Split(s[j..])
  {
  }

  lemma LowerAllCons(t: string, ts: seq<string>)
    ensures LowerAll([t] + ts) == [Lower(t)] + LowerAll(ts)
  {
  }

  /** Joining the fields of a single-spaced string with spaces gives the string back. */
  lemma {:induction false} JoinSplit(s: string)
    requires SingleSpaced(s)
    ensures JoinSpaced(Split(s)) == s
    decreases |s|
  {
    var i := FirstSpace(s, 0);
    if i < |s| {
      var j := SkipSpaces(s, i);
      assert j == i + 1 by {
        assert i + 1 == |s| || !IsSpace(s[i + 1]);
      }
      var rest := s[j..];
      assert SingleSpaced(rest) by {
        forall k | 0 <= k < |rest| && IsSpace(rest[k])
          ensures rest[k] == ' ' && (k + 1 == |rest| || !IsSpace(rest[k + 1]))
        {
          assert rest[k] == s[j + k];
        }
      }
      JoinSplit(rest);
      assert Split(s) == [s[..i]] + Split(rest);
      assert s[i] == ' ';
      assert s == s[..i] + " " + rest;
    }
  }

  /**
   * Splitting a space-joined sequence of space-free fields gives the fields
   * back, provided no inner field is empty (an empty inner field would merge
   * two separators into one run).
   */
  lemma {:induction false} SplitJoin(ts: seq<string>)
    requires |ts| >= 1
    requires forall k :: 0 <= k < |ts| ==> NoSpace(ts[k])
    requires forall k :: 0 < k < |ts| - 1 ==> ts[k] != ""
    ensures Split(JoinSpaced(ts)) == ts
    decreases |ts|
  {
    var s := JoinSpaced(ts);
    if |ts| == 1 {
      assert FirstSpace(s, 0) == |s| by { NoSpaceScan(s, 0); }
    } else {
      var t, rest := ts[0], ts[1..];
      var tail := JoinSpaced(rest);
      assert s == t + " " + tail;
      assert FirstSpace(s, 0) == |t| by { NoSpacePrefixScan(s, t); }
      assert SkipSpaces(s, |t|) == |t| + 1 by {
        assert SkipSpaces(s, |t| + 1) == |t| + 1 by {
          if |t| + 1 < |s| {
            JoinedStart(rest);
            assert s[|t| + 1] == tail[0];
          }
        }
      }
      assert s[|t| + 1..] == tail;
      assert s[..|t|] == t;
      SplitJoin(rest);
    }
  }

  lemma {:induction false} NoSpaceScan(s: string, from: nat)
    requires from <= |s|
    requires NoSpace(s)
    ensures FirstSpace(s, from) == |s|
    decreases |s| - from
  {
    if from < |s| {
      NoSpaceScan(s, from + 1);
    }
  }

  lemma NoSpacePrefixScan(s: string, t: string)
    requires NoSpace(t)
    requires |t| < |s| && s[..|t|] == t && s[|t|] == ' '
    ensures FirstSpace(s, 0) == |t|
  {
    assert forall m :: 0 <= m < |t| ==> s[m] == t[m];
  }

  /** A join of at least two fields whose first field is non-empty starts with a non-space. */
  lemma JoinedStart(ts: seq<string>)
    requires |ts| >= 1
    requires forall k :: 0 <= k < |ts| ==> NoSpace(ts[k])
    requires |ts| > 1 ==> ts[0] != ""
    ensures JoinSpaced(ts) != "" ==> !IsSpace(JoinSpaced(ts)[0])
  {
    if |ts| > 1 {
      assert JoinSpaced(ts)[0] == ts[0][0];
    }
  }

  // ---- trim() ----

  /** Where trailing whitespace begins, scanning back from `upto` but not past `lo`. */
  function TrimEndIndex(s: string, lo: nat, upto: nat): (k: nat)
    requires lo <= upto <= |s|
    ensures lo <= k <= upto
    ensures forall m :: k <= m < upto ==> IsSpace(s[m])
    ensures k > lo ==> !IsSpace(s[k - 1])
    decreases upto
  {
    if upto == lo || !IsSpace(s[upto - 1]) then upto else TrimEndIndex(s, lo, upto - 1)
  }

  /** `s.trim()`: the string without leading and trailing whitespace. */
  function Trim(s: string): (r: string)
    ensures r == "" <==> forall i :: 0 <= i < |s| ==> IsSpace(s[i])
    ensures r != "" ==> !IsSpace(r[0]) && !IsSpace(r[|r| - 1])
    ensures exists a, b ::
      && 0 <= a <= b <= |s| && r == s[a..b]
      && (forall i :: 0 <= i < a ==> IsSpace(s[i]))
      && (forall i :: b <= i < |s| ==> IsSpace(s[i]))
  {
    var a := SkipSpaces(s, 0);
    var b := TrimEndIndex(s, a, |s|);
    assert (forall i :: 0 <= i < a ==> IsSpace(s[i])) && (forall i :: b <= i < |s| ==> IsSpace(s[i]));
    s[a..b]
  }

  // ---- substring search ----

  predicate SubstringAt(s: string, p: nat, sub: string) {
    p + |sub| <= |s| && s[p..p + |sub|] == sub
  }

  /** The first index at or after `from` where `sub` occurs, or -1. */
  function IndexOfFrom(s: string, sub: string, from: nat): (k: int)
    ensures k == -1 || (from <= k && SubstringAt(s, k, sub))
    ensures k == -1 ==> forall p: nat :: from <= p ==> !SubstringAt(s, p, sub)
    ensures k >= 0 ==> forall p: nat :: from <= p < k ==> !SubstringAt(s, p, sub)
    decreases |s| - from
  {
    if from + |sub| > |s| then -1
    else if s[from..from + |sub|] == sub then from
    else IndexOfFrom(s, sub, from + 1)
  }

  /** `s.includes(sub)`. */
  predicate Includes(s: string, sub: string)
    ensures Includes(s, sub) <==> exists p: nat :: SubstringAt(s, p, sub)
  {
    IndexOfFrom(s, sub, 0) >= 0
  }

  /** `pat` occurs at `k` and nowhere before. */
  predicate FirstOccurrence(s: string, pat: string, k: nat) {
    SubstringAt(s, k, pat) && forall p: nat :: p < k ==> !SubstringAt(s, p, pat)
  }

  /** `s.replace(pat, rep)` with a string pattern: only the first occurrence is replaced. */
  function ReplaceFirst(s: string, pat: string, rep: string): (r: string)
    ensures !Includes(s, pat) ==> r == s
    ensures Includes(s, pat) ==>
      exists k: nat :: FirstOccurrence(s, pat, k) && k + |pat| <= |s| && r == s[..k] + rep + s[k + |pat|..]
  {
    var k := IndexOfFrom(s, pat, 0);
    if k < 0 then s
    else
      assert FirstOccurrence(s, pat, k);
      s[..k] + rep + s[k + |pat|..]
  }

  // ---- replace(/\bword\b/gi, rep) ----

  /** A case-insensitive whole-word occurrence of `w` (`/\bw\b/i`) starts at `p`. */
  predicate WordAt(s: string, p: nat, w: string) {
    && p + |w| <= |s|
    && (forall i :: 0 <= i < |w| ==> LowerChar(s[p + i]) == w[i])
    && (p == 0 || !IsWordChar(s[p - 1]))
    && (p + |w| == |s| || !IsWordChar(s[p + |w|]))
  }

  /** The scan replaces at `p`: the position is marked and the occurrence fits. */
  predicate Hit(s: string, marks: seq<bool>, n: nat, p: nat)
    requires |marks| == |s| && p < |s|
  {
    marks[p] && p + n <= |s|
  }

  /**
   * The left-to-right scan of a global replace: from `p` on, an occurrence of
   * length `n` starting at a marked position becomes `rep` and the scan resumes
   * right after it; any other character is copied.
   */
  function Scan(s: string, marks: seq<bool>, n: nat, rep: string, p: nat): string
    requires |marks| == |s| && n > 0 && p <= |s|
    decreases |s| - p
  {
    if p == |s| then ""
    else if Hit(s, marks, n, p) then rep + Scan(s, marks, n, rep, p + n)
    else [s[p]] + Scan(s, marks, n, rep, p + 1)
  }

  /** One step of the scan. */
  lemma ScanStep(s: string, marks: seq<bool>, n: nat, rep: string, p: nat)
    requires |marks| == |s| && n > 0 && p < |s|
    ensures Hit(s, marks, n, p) ==> Scan(s, marks, n, rep, p) == rep + Scan(s, marks, n, rep, p + n)
    ensures !Hit(s, marks, n, p) ==> Scan(s, marks, n, rep, p) == [s[p]] + Scan(s, marks, n, rep, p + 1)
  {
  }

  /** Without a marked position from `p` on, the rest of the text is copied unchanged. */
  lemma {:induction false} ScanNoMatch(s: string, marks: seq<bool>, n: nat, rep: string, p: nat)
    requires |marks| == |s| && n > 0 && p <= |s|
    requires forall q :: p <= q < |s| ==> !marks[q]
    ensures Scan(s, marks, n, rep, p) == s[p..]
    decreases |s| - p
  {
    if p < |s| {
      ScanNoMatch(s, marks, n, rep, p + 1);
      assert s[p..] == [s[p]] + s[p + 1..];
    }
  }

  lemma ConsSlice(s: string, p: nat, m: nat, x: string, y: string)
    requires p < m <= |s|
    ensures [s[p]] + (s[p + 1..m] + x + y) == s[p..m] + x + y
  {
    assert s[p..m] == [s[p]] + s[p + 1..m];
  }

  lemma EmptySliceFirst(s: string, m: nat, x: string, y: string)
    requires m <= |s|
    ensures s[m..m] + x + y == x + y
  {
  }

  lemma SliceSplitAt(s: string, i: nat, j: nat)
    requires i <= j <= |s|
    ensures s[i..] == s[i..j] + s[j..]
  {
  }

  lemma SliceCons(s: string, i: nat)
    requires i < |s|
    ensures s[i..] == [s[i]] + s[i + 1..]
  {
  }

  /** The text before the first marked position is copied, and that occurrence becomes `rep`. */
  lemma {:induction false} ScanFirstMatch(s: string, marks: seq<bool>, n: nat, rep: string, p: nat, m: nat)
    requires |marks| == |s| && n > 0 && p <= m < |s|
    requires Hit(s, marks, n, m) && forall q :: p <= q < m ==> !marks[q]
    ensures Scan(s, marks, n, rep, p) == s[p..m] + rep + Scan(s, marks, n, rep, m + n)
    decreases m - p
  {
    if p < m {
      ScanFirstMatch(s, marks, n, rep, p + 1, m);
      ScanStep(s, marks, n, rep, p);
      ConsSlice(s, p, m, rep, Scan(s, marks, n, rep, m + n));
    } else {
      ScanStep(s, marks, n, rep, p);
      EmptySliceFirst(s, p, rep, Scan(s, marks, n, rep, m + n));
    }
  }

  /** A replacement of an occurrence's own length keeps the length of the text. */
  lemma {:induction false} ScanLength(s: string, marks: seq<bool>, n: nat, rep: string, p: nat)
    requires |marks| == |s| && n > 0 && p <= |s| && |rep| == n
    ensures |Scan(s, marks, n, rep, p)| == |s| - p
    decreases |s| - p
  {
    if p < |s| {
      ScanStep(s, marks, n, rep, p);
      if Hit(s, marks, n, p) {
        ScanLength(s, marks, n, rep, p + n);
      } else {
        ScanLength(s, marks, n, rep, p + 1);
      }
    }
  }

  /** A replacement at least as long as the occurrence never shortens the text. */
  lemma {:induction false} ScanGrows(s: string, marks: seq<bool>, n: nat, rep: string, p: nat)
    requires |marks| == |s| && n > 0 && p <= |s| && |rep| >= n
    ensures |Scan(s, marks, n, rep, p)| >= |s| - p
    decreases |s| - p
  {
    if p < |s| {
      ScanStep(s, marks, n, rep, p);
      if Hit(s, marks, n, p) {
        ScanGrows(s, marks, n, rep, p + n);
      } else {
        ScanGrows(s, marks, n, rep, p + 1);
      }
    }
  }

  /** The scan from a marked position starts with the replacement. */
  lemma ScanHere(s: string, marks: seq<bool>, n: nat, rep: string, p: nat, k: nat)
    requires |marks| == |s| && n > 0 && p < |s| && Hit(s, marks, n, p) && k < |rep|
    ensures k < |Scan(s, marks, n, rep, p)| && Scan(s, marks, n, rep, p)[k] == rep[k]
  {
    ScanStep(s, marks, n, rep, p);
  }

  /** Past a replaced occurrence, the scan from `p` reads as the scan from just after it. */
  lemma ScanShiftWord(s: string, marks: seq<bool>, n: nat, rep: string, p: nat, j: nat)
    requires |marks| == |s| && n > 0 && p < |s| && Hit(s, marks, n, p)
    requires j < |Scan(s, marks, n, rep, p + n)|
    ensures |rep| + j < |Scan(s, marks, n, rep, p)|
    ensures Scan(s, marks, n, rep, p)[|rep| + j] == Scan(s, marks, n, rep, p + n)[j]
  {
    ScanStep(s, marks, n, rep, p);
  }

  /** Past a copied character, the scan from `p` reads as the scan from `p + 1`. */
  lemma ScanShiftChar(s: string, marks: seq<bool>, n: nat, rep: string, p: nat, j: nat)
    requires |marks| == |s| && n > 0 && p < |s| && !Hit(s, marks, n, p)
    requires j < |Scan(s, marks, n, rep, p + 1)|
    ensures 1 + j < |Scan(s, marks, n, rep, p)|
    ensures Scan(s, marks, n, rep, p)[1 + j] == Scan(s, marks, n, rep, p + 1)[j]
  {
    ScanStep(s, marks, n, rep, p);
  }

  /**
   * With a replacement as long as the occurrence, the scan from `p` writes `rep`
   * over an occurrence `d` characters further on, in the same place, provided no
   * earlier occurrence the scan meets overlaps it.
   */
  lemma {:induction false} ScanCovers(s: string, marks: seq<bool>, n: nat, rep: string, p: nat, d: nat, k: nat)
    requires |marks| == |s| && n > 0 && |rep| == n && k < n
    requires p + d < |s| && Hit(s, marks, n, p + d)
    requires forall m :: p <= m < p + d && marks[m] ==> m + n <= p + d
    ensures d + k < |Scan(s, marks, n, rep, p)|
    ensures Scan(s, marks, n, rep, p)[d + k] == rep[k]
    decreases d
  {
    if d == 0 {
      ScanHere(s, marks, n, rep, p, k);
    } else if Hit(s, marks, n, p) {
      ScanCovers(s, marks, n, rep, p + n, d - n, k);
      ScanShiftWord(s, marks, n, rep, p, d - n + k);
    } else {
      ScanCovers(s, marks, n, rep, p + 1, d - 1, k);
      ScanShiftChar(s, marks, n, rep, p, d - 1 + k);
    }
  }

  /** A character that no occurrence covers is copied unchanged. */
  lemma {:induction false} ScanKeeps(s: string, marks: seq<bool>, n: nat, rep: string, p: nat, d: nat)
    requires |marks| == |s| && n > 0 && |rep| == n && p + d < |s|
    requires forall m :: 0 <= m <= p + d < m + n ==> !marks[m]
    ensures d < |Scan(s, marks, n, rep, p)|
    ensures Scan(s, marks, n, rep, p)[d] == s[p + d]
    decreases d
  {
    if Hit(s, marks, n, p) {
      assert n <= d;
      ScanKeeps(s, marks, n, rep, p + n, d - n);
      ScanShiftWord(s, marks, n, rep, p, d - n);
    } else if d == 0 {
      ScanStep(s, marks, n, rep, p);
    } else {
      ScanKeeps(s, marks, n, rep, p + 1, d - 1);
      ScanShiftChar(s, marks, n, rep, p, d - 1);
    }
  }

  /** When every marked occurrence already reads `rep`, the scan changes nothing. */
  lemma {:induction false} ScanFixed(s: string, marks: seq<bool>, n: nat, rep: string, p: nat)
    requires |marks| == |s| && n > 0 && p <= |s|
    requires forall q :: p <= q < |s| && Hit(s, marks, n, q) ==> s[q..q + n] == rep
    ensures Scan(s, marks, n, rep, p) == s[p..]
    decreases |s| - p
  {
    if p < |s| {
      if Hit(s, marks, n, p) {
        ScanFixed(s, marks, n, rep, p + n);
        ScanFixedWord(s, marks, n, rep, p);
      } else {
        ScanFixed(s, marks, n, rep, p + 1);
        ScanFixedChar(s, marks, n, rep, p);
      }
    }
  }

  lemma ScanFixedWord(s: string, marks: seq<bool>, n: nat, rep: string, p: nat)
    requires |marks| == |s| && n > 0 && p < |s| && Hit(s, marks, n, p) && s[p..p + n] == rep
    requires Scan(s, marks, n, rep, p + n) == s[p + n..]
    ensures Scan(s, marks, n, rep, p) == s[p..]
  {
    ScanStep(s, marks, n, rep, p);
    SliceSplitAt(s, p, p + n);
  }

  lemma ScanFixedChar(s: string, marks: seq<bool>, n: nat, rep: string, p: nat)
    requires |marks| == |s| && n > 0 && p < |s| && !Hit(s, marks, n, p)
    requires Scan(s, marks, n, rep, p + 1) == s[p + 1..]
    ensures Scan(s, marks, n, rep, p) == s[p..]
  {
    ScanStep(s, marks, n, rep, p);
    SliceCons(s, p);
  }

  /** Where the whole-word occurrences of `w` start. */
  function WordMarks(s: string, w: string): (r: seq<bool>)
    ensures |r| == |s|
    ensures forall p :: 0 <= p < |s| ==> (r[p] <==> WordAt(s, p, w))
  {
    seq(|s|, p requires 0 <= p < |s| => WordAt(s, p, w))
  }

  function ReplaceWordsFrom(s: string, w: string, rep: string, p: nat): string
    requires |w| > 0 && p <= |s|
  {
    Scan(s, WordMarks(s, w), |w|, rep, p)
  }

  /**
   * `s.replace(/\bw\b/gi, rep)`: scanning left to right, every case-insensitive
   * whole-word occurrence of `w` is replaced by `rep`; word boundaries are
   * judged on the original string.
   */
  function ReplaceWords(s: string, w: string, rep: string): string
    requires |w| > 0
  {
    ReplaceWordsFrom(s, w, rep, 0)
  }

  /** No occurrence from `p` on: the rest of the string is copied unchanged. */
  lemma ReplaceWordsNoMatch(s: string, w: string, rep: string, p: nat)
    requires |w| > 0 && p <= |s|
    requires forall q: nat :: p <= q < |s| ==> !WordAt(s, q, w)
    ensures ReplaceWordsFrom(s, w, rep, p) == s[p..]
  {
    ScanNoMatch(s, WordMarks(s, w), |w|, rep, p);
  }

  /**
   * The first occurrence at or after `p` is replaced, the text before it is
   * copied, and the replacement goes on right after the occurrence.
   */
  lemma ReplaceWordsFirstMatch(s: string, w: string, rep: string, p: nat, m: nat)
    requires |w| > 0 && p <= m
    requires WordAt(s, m, w)
    requires forall q: nat :: p <= q < m ==> !WordAt(s, q, w)
    ensures ReplaceWordsFrom(s, w, rep, p) == s[p..m] + rep + ReplaceWordsFrom(s, w, rep, m + |w|)
  {
    ScanFirstMatch(s, WordMarks(s, w), |w|, rep, p, m);
  }

  /** A longer replacement never shortens the text. */
  lemma ReplaceWordsGrows(s: string, w: string, rep: string, p: nat)
    requires |w| > 0 && p <= |s| && |rep| >= |w|
    ensures |ReplaceWordsFrom(s, w, rep, p)| >= |s| - p
  {
    ScanGrows(s, WordMarks(s, w), |w|, rep, p);
  }

  predicate AllWordChars(w: string) {
    forall i :: 0 <= i < |w| ==> IsWordChar(w[i])
  }

  /** Two whole-word occurrences of a word made of word characters never overlap. */
  lemma WholeWordsDisjoint(s: string, w: string, p: nat, q: nat)
    requires |w| > 0 && AllWordChars(w) && p < q
    requires WordAt(s, p, w) && WordAt(s, q, w)
    ensures p + |w| <= q
  {
    forall i | p <= i < p + |w|
      ensures IsWordChar(s[i])
    {
      assert LowerChar(s[p + (i - p)]) == w[i - p];
    }
    assert !IsWordChar(s[q - 1]);
  }

  lemma SliceAfter(a: string, b: string, i: nat, j: nat)
    requires i <= j <= |a| + |b|
    ensures |a| <= i ==> (a + b)[i..j] == b[i - |a|..j - |a|]
    ensures j <= |a| ==> (a + b)[i..j] == a[i..j]
  {
  }

  /**
   * `s.replace(/\bw\b/gi, rep)` with a same-length replacement: the length is
   * kept, every whole-word occurrence becomes `rep`, and every other character
   * stays as it was.
   */
  lemma ReplaceWordsMeaning(s: string, w: string, rep: string)
    requires |w| > 0 && |rep| == |w| && AllWordChars(w)
    ensures |ReplaceWords(s, w, rep)| == |s|
    ensures forall q: nat :: WordAt(s, q, w) ==> ReplaceWords(s, w, rep)[q..q + |w|] == rep
    ensures forall i: nat :: i < |s| && (forall m: nat :: m <= i < m + |w| ==> !WordAt(s, m, w)) ==>
      ReplaceWords(s, w, rep)[i] == s[i]
  {
    var marks := WordMarks(s, w);
    ScanLength(s, marks, |w|, rep, 0);
    forall q: nat | WordAt(s, q, w)
      ensures ReplaceWords(s, w, rep)[q..q + |w|] == rep
    {
      forall m | 0 <= m < q && marks[m]
        ensures m + |w| <= q
      {
        WholeWordsDisjoint(s, w, m, q);
      }
      forall k | 0 <= k < |w|
        ensures ReplaceWords(s, w, rep)[q + k] == rep[k]
      {
        ScanCovers(s, marks, |w|, rep, 0, q, k);
      }
    }
    forall i: nat | i < |s| && (forall m: nat :: m <= i < m + |w| ==> !WordAt(s, m, w))
      ensures ReplaceWords(s, w, rep)[i] == s[i]
    {
      ScanKeeps(s, marks, |w|, rep, 0, i);
    }
  }

  /** When every whole-word occurrence already reads `rep`, the replacement changes nothing. */
  lemma ReplaceWordsFixed(s: string, w: string, rep: string, p: nat)
    requires |w| > 0 && p <= |s|
    requires forall q: nat :: p <= q && WordAt(s, q, w) ==> s[q..q + |w|] == rep
    ensures ReplaceWordsFrom(s, w, rep, p) == s[p..]
  {
    ScanFixed(s, WordMarks(s, w), |w|, rep, p);
  }

  /** Whether a whole-word occurrence of `w` starts at or after `p` (`/\bw\b/.test`). */
  predicate ContainsWordFrom(s: string, w: string, p: nat)
    ensures ContainsWordFrom(s, w, p) <==> exists q: nat :: p <= q && WordAt(s, q, w)
    decreases |s| - p
  {
    p + |w| <= |s| && (WordAt(s, p, w) || ContainsWordFrom(s, w, p + 1))
  }

  // ---- decimal rendering of a number ----

  function DigitChar(d: nat): (c: char)
    requires d < 10
    ensures '0' <= c <= '9' && c as int - '0' as int == d
  {
    ('0' as int + d) as char
  }

  /** `n.toString()` for a non-negative integer. */
  function NatToString(n: nat): (r: string)
    ensures |r| >= 1
    ensures forall i :: 0 <= i < |r| ==> '0' <= r[i] <= '9'
    ensures DecimalValue(r) == n
  {
    if n < 10 then [DigitChar(n)] else NatToString(n / 10) + [DigitChar(n % 10)]
  }

  /** The number a string of decimal digits denotes. */
  function DecimalValue(r: string): int
  {
    if r == [] then 0 else DecimalValue(r[..|r| - 1]) * 10 + (r[|r| - 1] as int - '0' as int)
  }
}
