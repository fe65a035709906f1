/** String operations shared by the front end and the backend: substring
    search (JavaScript `indexOf`/`includes`, Python `in`), first-occurrence
    replacement (JavaScript `replace` with a string pattern, Python
    `replace(old, new, 1)`), an ASCII case fold, and decimal rendering of
    integers (`Number.prototype.toString`). */
module Text {
  import opened Types

  /** `p` occurs in `s` starting at index `i`. */
  predicate OccursAt(s: string, p: string, i: nat) {
    i + |p| <= |s| && s[i..i + |p|] == p
  }

  predicate StartsWith(s: string, p: string) {
    |p| <= |s| && s[..|p|] == p
  }

  lemma OccursAtShift(s: string, p: string)
    requires |s| > 0
    ensures forall j: nat {:trigger OccursAt(s, p, j)} ::
      0 < j ==> (OccursAt(s, p, j) <==> OccursAt(s[1..], p, j - 1))
  {
    forall j: nat | 0 < j ensures OccursAt(s, p, j) <==> OccursAt(s[1..], p, j - 1) {
      if j + |p| <= |s| {
        assert s[1..][j - 1..j - 1 + |p|] == s[j..j + |p|];
      }
    }
  }

  /** Index of the first occurrence of `p` in `s`, if any. */
  function IndexOf(s: string, p: string): (r: Option<nat>)
    ensures r.Some? ==> OccursAt(s, p, r.value)
    ensures r.Some? ==> forall j :: 0 <= j < r.value ==> !OccursAt(s, p, j)
    ensures r.None? ==> forall j: nat :: !OccursAt(s, p, j)
  {
    ScanFinds(s, p);
    Scan(s, p)
  }

  /** The search itself: try each starting index in turn. */
  function Scan(s: string, p: string): Option<nat>
    decreases |s|
  {
    if StartsWith(s, p) then
      Some(0)
    else if |s| == 0 then
      None
    else
      match Scan(s[1..], p)
      case None => None
      case Some(k) => Some(k + 1)
  }

  lemma {:induction false} ScanFinds(s: string, p: string)
    ensures Scan(s, p).Some? ==> OccursAt(s, p, Scan(s, p).value)
    ensures Scan(s, p).Some? ==> forall j :: 0 <= j < Scan(s, p).value ==> !OccursAt(s, p, j)
    ensures Scan(s, p).None? ==> forall j: nat :: !OccursAt(s, p, j)
    decreases |s|
  {
    assert |p| <= |s| ==> s[..|p|] == s[0..|p|];
    if !StartsWith(s, p) && |s| > 0 {
      ScanFinds(s[1..], p);
      OccursAtShift(s, p);
    }
  }

  /** Substring test, defined as in ECMAScript: `includes` holds exactly when
      `indexOf` finds a position. */
  predicate Contains(s: string, p: string): (b: bool)
    ensures b <==> exists i: nat :: OccursAt(s, p, i)
  {
    IndexOf(s, p).Some?
  }

  /** Replace the first occurrence of `p` in `s` by `rep`; `s` unchanged when
      `p` does not occur. */
  function ReplaceFirst(s: string, p: string, rep: string): (r: string)
    ensures IndexOf(s, p).None? ==> r == s
    ensures IndexOf(s, p).Some? ==> |r| == |s| - |p| + |rep|
  {
    match IndexOf(s, p)
    case None => s
    case Some(i) => s[..i] + rep + s[i + |p|..]
  }

  /** The replacement happens at the first occurrence: everything before it
      is kept, `rep` follows, and then everything after the occurrence. */
  lemma ReplaceFirstAtFirstOccurrence(s: string, p: string, rep: string)
    requires Contains(s, p)
    ensures exists i: nat ::
      && OccursAt(s, p, i)
      && (forall j :: 0 <= j < i ==> !OccursAt(s, p, j))
      && ReplaceFirst(s, p, rep) == s[..i] + rep + s[i + |p|..]
  {
    var i := IndexOf(s, p).value;
    assert OccursAt(s, p, i);
  }

  /** An occurrence of `q` wholly before the first occurrence of `p` is
      still there after the replacement, at the same index. */
  lemma ReplaceFirstKeepsBefore(s: string, p: string, rep: string, q: string, j: nat)
    requires IndexOf(s, p).Some?
    requires OccursAt(s, q, j) && j + |q| <= IndexOf(s, p).value
    ensures OccursAt(ReplaceFirst(s, p, rep), q, j)
  {
    var i := IndexOf(s, p).value;
    var a, b := s[..i], s[i + |p|..];
    assert s == a + p + b by {
      assert s[i..i + |p|] == p;
    }
    ReplaceFirstAt(s, p, rep, i);
    SpliceKeepsOccurrence(a, p, rep, b, q, j, j);
  }

  /** An occurrence of `q` wholly after the first occurrence of `p` is still
      there after the replacement, shifted by the change in length. With
      `q == p` this says that only the first occurrence is replaced. */
  lemma ReplaceFirstKeepsAfter(s: string, p: string, rep: string, q: string, j: nat)
    requires IndexOf(s, p).Some?
    requires OccursAt(s, q, j) && j >= IndexOf(s, p).value + |p|
    ensures OccursAt(ReplaceFirst(s, p, rep), q, j - |p| + |rep|)
  {
    var i := IndexOf(s, p).value;
    var a, b := s[..i], s[i + |p|..];
    assert s == a + p + b by {
      assert s[i..i + |p|] == p;
    }
    ReplaceFirstAt(s, p, rep, i);
    SpliceKeepsOccurrence(a, p, rep, b, q, j, j - |p| + |rep|);
  }

  /** An occurrence with none before it is the one `IndexOf` finds. */
  lemma IndexOfFirst(s: string, p: string, i: nat)
    requires OccursAt(s, p, i)
    requires forall j :: 0 <= j < i ==> !OccursAt(s, p, j)
    ensures IndexOf(s, p) == Some(i)
  {
  }

  /** Each occurrence starts with the pattern's first character. */
  lemma OccursAtHead(s: string, p: string, j: nat)
    requires OccursAt(s, p, j) && |p| > 0
    ensures s[j] == p[0]
  {
    assert s[j..j + |p|][0] == s[j];
  }

  /** Replacing cannot create an occurrence of `q` when `rep` is non-empty and
      shares no character with `q`. */
  lemma ReplaceFirstNoNewOccurrence(s: string, p: string, rep: string, q: string)
    requires !Contains(s, q)
    requires |rep| > 0
    requires forall c :: c in rep ==> c !in q
    ensures !Contains(ReplaceFirst(s, p, rep), q)
  {
    if Contains(s, p) {
      var i := IndexOf(s, p).value;
      var a, b := s[..i], s[i + |p|..];
      ReplaceFirstAt(s, p, rep, i);
      assert s == a + p + b;
      assert !OccursAt(s, q, 0);
      forall j: nat ensures !OccursAt(a + rep + b, q, j) {
        SpliceNoOccurrence(a, p, rep, b, q, j);
      }
    }
  }

  /** Splicing `rep` in place of `p` creates no occurrence of `q` at `j` when
      `rep` shares no character with `q` and `s` has none at the matching
      index on either side of the splice. */
  lemma SpliceNoOccurrence(a: string, p: string, rep: string, b: string, q: string, j: nat)
    requires |q| > 0 && |rep| > 0 && forall c :: c in rep ==> c !in q
    requires j + |q| <= |a| ==> !OccursAt(a + p + b, q, j)
    requires j >= |a| + |rep| ==> !OccursAt(a + p + b, q, j - |rep| + |p|)
    ensures !OccursAt(a + rep + b, q, j)
  {
    var s, u := a + p + b, a + rep + b;
    if j + |q| > |u| {
    } else if j + |q| <= |a| {
      assert u[j..j + |q|] == a[j..j + |q|] == s[j..j + |q|];
    } else if j >= |a| + |rep| {
      var j' := j - |rep| + |p|;
      assert s[j'..j' + |q|] == b[j - |a| - |rep|..j - |a| - |rep| + |q|] == u[j..j + |q|];
    } else {
      var m := if j < |a| then |a| else j;
      assert u[m] == rep[m - |a|];
      assert rep[m - |a|] in rep;
      assert u[j..j + |q|][m - j] !in q;
    }
  }

  /** No occurrence of `q` in the spliced text before index `t`, the image of
      the first occurrence `k` of `q` in `a + p + b`. */
  lemma NoEarlierAfterSplice(a: string, p: string, rep: string, b: string, q: string, k: nat, t: nat)
    requires |q| > 0 && |rep| > 0 && forall c :: c in rep ==> c !in q
    requires forall j :: 0 <= j < k ==> !OccursAt(a + p + b, q, j)
    requires (k < |a| && t == k) || (|a| + |p| <= k && t == k - |p| + |rep|)
    ensures forall j :: 0 <= j < t ==> !OccursAt(a + rep + b, q, j)
  {
    forall j: nat | j < t ensures !OccursAt(a + rep + b, q, j) {
      if j + |q| <= |a| {
        assert !OccursAt(a + p + b, q, j);
      }
      if j >= |a| + |rep| {
        assert !OccursAt(a + p + b, q, j - |rep| + |p|);
      }
      SpliceNoOccurrence(a, p, rep, b, q, j);
    }
  }

  /** An occurrence of `q` wholly on one side of the spliced part is kept,
      shifted by the change in length when it lies after it. */
  lemma SpliceKeepsOccurrence(a: string, p: string, rep: string, b: string, q: string, k: nat, t: nat)
    requires OccursAt(a + p + b, q, k)
    requires (k + |q| <= |a| && t == k) || (|a| + |p| <= k && t == k - |p| + |rep|)
    ensures OccursAt(a + rep + b, q, t)
  {
    var s, u := a + p + b, a + rep + b;
    if k + |q| <= |a| {
      assert u[t..t + |q|] == a[k..k + |q|] == s[k..k + |q|];
    } else {
      var m := k - |a| - |p|;
      assert u[t..t + |q|] == b[m..m + |q|] == s[k..k + |q|];
    }
  }

  /** The first occurrence of `q` in the spliced text, when the splice shares
      no character with `q` and `q`'s first occurrence lies on one side. */
  lemma SpliceFirstOccurrence(a: string, p: string, rep: string, b: string, q: string, k: nat, t: nat)
    requires |q| > 0 && |rep| > 0 && forall c :: c in rep ==> c !in q
    requires IndexOf(a + p + b, q) == Some(k)
    requires (k + |q| <= |a| && t == k) || (|a| + |p| <= k && t == k - |p| + |rep|)
    ensures IndexOf(a + rep + b, q) == Some(t)
  {
    SpliceKeepsOccurrence(a, p, rep, b, q, k, t);
    NoEarlierAfterSplice(a, p, rep, b, q, k, t);
    IndexOfFirst(a + rep + b, q, t);
  }

  /** Where `q` is found after `p` is replaced: at the same index when its
      first occurrence lies before `p`'s, shifted by the change in length when
      it lies after. A replacement sharing no character with `q` creates no
      earlier occurrence. */
  lemma IndexOfAfterReplace(s: string, p: string, rep: string, q: string, i: nat, k: nat)
    requires IndexOf(s, p) == Some(i) && IndexOf(s, q) == Some(k)
    requires |q| > 0 && (k + |q| <= i || i + |p| <= k)
    requires |rep| > 0 && forall c :: c in rep ==> c !in q
    ensures k < i ==> IndexOf(ReplaceFirst(s, p, rep), q) == Some(k)
    ensures k >= i ==> IndexOf(ReplaceFirst(s, p, rep), q) == Some(k - |p| + |rep|)
  {
    var a, b := s[..i], s[i + |p|..];
    SplitAtFirst(s, p, rep, i);
    var t: nat := if k < i then k else k - |p| + |rep|;
    SpliceFirstOccurrenceOf(s, a, p, b, ReplaceFirst(s, p, rep), rep, q, k, t);
  }

  /** [SpliceFirstOccurrence], for texts named by equations. */
  lemma SpliceFirstOccurrenceOf(s: string, a: string, p: string, b: string, r: string,
                                rep: string, q: string, k: nat, t: nat)
    requires s == a + p + b && r == a + rep + b
    requires |q| > 0 && |rep| > 0 && forall c :: c in rep ==> c !in q
    requires IndexOf(s, q) == Some(k)
    requires (k + |q| <= |a| && t == k) || (|a| + |p| <= k && t == k - |p| + |rep|)
    ensures IndexOf(r, q) == Some(t)
  {
    SpliceFirstOccurrence(a, p, rep, b, q, k, t);
  }

  /** The text around the first occurrence of `p`, before and after it is
      replaced. */
  lemma SplitAtFirst(s: string, p: string, rep: string, i: nat)
    requires IndexOf(s, p) == Some(i)
    ensures i + |p| <= |s| && s == s[..i] + p + s[i + |p|..]
    ensures ReplaceFirst(s, p, rep) == s[..i] + rep + s[i + |p|..]
  {
    assert s == s[..i] + p + s[i + |p|..] by {
      assert s[i..i + |p|] == p;
    }
    ReplaceFirstAt(s, p, rep, i);
  }

  /** The replacement, for a known first occurrence. */
  lemma ReplaceFirstAt(s: string, p: string, rep: string, i: nat)
    requires IndexOf(s, p) == Some(i)
    ensures ReplaceFirst(s, p, rep) == s[..i] + rep + s[i + |p|..]
  {
  }

  /** Slices of `s` with `rep` spliced in at `i` in place of `lp` characters,
      around a later stretch `k .. k + lq`. */
  lemma SpliceSlicesAfter(s: string, i: nat, lp: nat, rep: string, k: nat, lq: nat)
    requires i + lp <= k && k + lq <= |s|
    ensures var u, t := s[..i] + rep + s[i + lp..], k - lp + |rep|;
      && u[..t] == s[..i] + rep + s[i + lp..k]
      && u[t + lq..] == s[k + lq..]
  {
    var b := s[i + lp..];
    var u, t := s[..i] + rep + b, k - lp + |rep|;
    assert u[..t] == s[..i] + rep + b[..k - i - lp];
    assert b[..k - i - lp] == s[i + lp..k];
    assert u[t + lq..] == b[k - i - lp + lq..];
  }

  /** The same around an earlier stretch `k .. k + lq`. */
  lemma SpliceSlicesBefore(s: string, i: nat, lp: nat, rep: string, k: nat, lq: nat)
    requires k + lq <= i && i + lp <= |s|
    ensures var u := s[..i] + rep + s[i + lp..];
      && u[..k] == s[..k]
      && u[k + lq..] == s[k + lq..i] + rep + s[i + lp..]
  {
    var a := s[..i];
    var u := a + rep + s[i + lp..];
    assert u[..k] == a[..k];
    assert u[k + lq..] == a[k + lq..] + rep + s[i + lp..];
  }

  /** `u` is `s` with `rep` in place of the `lp` characters at `i`, and `v`
      is `u` with `rep2` in place of the `lq` characters at `t`. */
  predicate SplicedTwice(s: string, i: nat, lp: nat, rep: string, t: nat, lq: nat, rep2: string,
                         u: string, v: string)
  {
    && i + lp <= |s| && u == s[..i] + rep + s[i + lp..]
    && t + lq <= |u| && v == u[..t] + rep2 + u[t + lq..]
  }

  /** Two splices, the second at the image `t` of a later index `k` of `s`. */
  lemma ComposeSplicesAfter(s: string, i: nat, lp: nat, rep: string, k: nat, lq: nat, rep2: string,
                            u: string, v: string, t: nat)
    requires i + lp <= k && k + lq <= |s| && t == k - lp + |rep|
    requires SplicedTwice(s, i, lp, rep, t, lq, rep2, u, v)
    ensures v == s[..i] + rep + s[i + lp..k] + rep2 + s[k + lq..]
  {
    SpliceSlicesAfter(s, i, lp, rep, k, lq);
  }

  /** Two splices, the second at an earlier index `k` of `s`. */
  lemma ComposeSplicesBefore(s: string, i: nat, lp: nat, rep: string, k: nat, lq: nat, rep2: string,
                             u: string, v: string)
    requires k + lq <= i
    requires SplicedTwice(s, i, lp, rep, k, lq, rep2, u, v)
    ensures v == s[..k] + rep2 + s[k + lq..i] + rep + s[i + lp..]
  {
    SpliceSlicesBefore(s, i, lp, rep, k, lq);
  }

  /** Both replacements at known positions: `p` at `i` in `s`, then `q` at
      `t` in the result. */
  lemma ReplaceFirstThenAt(s: string, p: string, rep: string, q: string, rep2: string,
                           i: nat, k: nat, t: nat)
    requires IndexOf(s, p) == Some(i) && IndexOf(s, q) == Some(k)
    requires |q| > 0 && (k + |q| <= i || i + |p| <= k)
    requires |rep| > 0 && forall c :: c in rep ==> c !in q
    requires t == if k < i then k else k - |p| + |rep|
    ensures var u := ReplaceFirst(s, p, rep);
      SplicedTwice(s, i, |p|, rep, t, |q|, rep2, u, ReplaceFirst(u, q, rep2))
  {
    IndexOfAfterReplace(s, p, rep, q, i, k);
    ReplaceFirstAt(ReplaceFirst(s, p, rep), q, rep2, t);
    ReplaceFirstAt(s, p, rep, i);
  }

  /** Two chained first-occurrence replacements, for patterns whose first
      occurrences do not overlap: each is replaced where it stands. */
  lemma ReplaceFirstTwice(s: string, p: string, rep: string, q: string, rep2: string, i: nat, k: nat)
    requires IndexOf(s, p) == Some(i) && IndexOf(s, q) == Some(k)
    requires |q| > 0 && (k + |q| <= i || i + |p| <= k)
    requires |rep| > 0 && forall c :: c in rep ==> c !in q
    ensures i < k ==> (ReplaceFirst(ReplaceFirst(s, p, rep), q, rep2)
                       == s[..i] + rep + s[i + |p|..k] + rep2 + s[k + |q|..])
    ensures k < i ==> (ReplaceFirst(ReplaceFirst(s, p, rep), q, rep2)
                       == s[..k] + rep2 + s[k + |q|..i] + rep + s[i + |p|..])
  {
    if i < k {
      ReplaceFirstThenLater(s, p, rep, q, rep2, i, k);
    } else if k < i {
      ReplaceFirstThenEarlier(s, p, rep, q, rep2, i, k);
    }
  }

  /** [ReplaceFirstTwice] when `q` comes after `p`. */
  lemma ReplaceFirstThenLater(s: string, p: string, rep: string, q: string, rep2: string, i: nat, k: nat)
    requires IndexOf(s, p) == Some(i) && IndexOf(s, q) == Some(k)
    requires |q| > 0 && i + |p| <= k
    requires |rep| > 0 && forall c :: c in rep ==> c !in q
    ensures ReplaceFirst(ReplaceFirst(s, p, rep), q, rep2)
            == s[..i] + rep + s[i + |p|..k] + rep2 + s[k + |q|..]
  {
    var u := ReplaceFirst(s, p, rep);
    var v := ReplaceFirst(u, q, rep2);
    var t: nat := k - |p| + |rep|;
    ReplaceFirstThenAt(s, p, rep, q, rep2, i, k, t);
    ComposeSplicesAfter(s, i, |p|, rep, k, |q|, rep2, u, v, t);
  }

  /** [ReplaceFirstTwice] when `q` comes before `p`. */
  lemma ReplaceFirstThenEarlier(s: string, p: string, rep: string, q: string, rep2: string, i: nat, k: nat)
    requires IndexOf(s, p) == Some(i) && IndexOf(s, q) == Some(k)
    requires |q| > 0 && k + |q| <= i
    requires |rep| > 0 && forall c :: c in rep ==> c !in q
    ensures ReplaceFirst(ReplaceFirst(s, p, rep), q, rep2)
            == s[..k] + rep2 + s[k + |q|..i] + rep + s[i + |p|..]
  {
    var u := ReplaceFirst(s, p, rep);
    var v := ReplaceFirst(u, q, rep2);
    ReplaceFirstThenAt(s, p, rep, q, rep2, i, k, k);
    ComposeSplicesBefore(s, i, |p|, rep, k, |q|, rep2, u, v);
  }


  /** ASCII case fold, the part of `toLowerCase` this model commits to. */
  function LowerChar(c: char): char {
    if 'A' <= c <= 'Z' then (c as int + 32) as char else c
  }

  /** The result has the same length, each upper-case ASCII letter turned
      into its lower-case partner, and every other character kept in place. */
  function Lower(s: string): (r: string)
    ensures |r| == |s|
    ensures forall i :: 0 <= i < |r| ==> !('A' <= r[i] <= 'Z')
    ensures forall i :: 0 <= i < |s| && 'A' <= s[i] <= 'Z' ==> r[i] == (s[i] as int + 32) as char
    ensures forall i :: 0 <= i < |s| && !('A' <= s[i] <= 'Z') ==> r[i] == s[i]
  {
    seq(|s|, i requires 0 <= i < |s| => LowerChar(s[i]))
  }

  /** Lower-casing twice is lower-casing once. */
  lemma LowerIdempotent(s: string)
    ensures Lower(Lower(s)) == Lower(s)
  {
    var l := Lower(s);
    assert forall i :: 0 <= i < |l| ==> Lower(l)[i] == l[i];
  }

  predicate IsDigit(c: char) {
    '0' <= c <= '9'
  }

  predicate AllDigits(s: string) {
    forall i :: 0 <= i < |s| ==> IsDigit(s[i])
  }

  function DigitChar(d: nat): char
    requires d < 10
  {
    (d + '0' as int) as char
  }

  function DigitValue(c: char): nat
    requires IsDigit(c)
  {
    c as int - '0' as int
  }

  /** Decimal digits of a natural number, without leading zeros. */
  function NatToDecimal(n: nat): (r: string)
    ensures |r| >= 1 && AllDigits(r)
    ensures |r| > 1 ==> r[0] != '0'
    ensures r[0] == '0' <==> n == 0
    decreases n
  {
    if n < 10 then [DigitChar(n)] else NatToDecimal(n / 10) + [DigitChar(n % 10)]
  }

  /** Value of a string of decimal digits. */
  function DecimalValue(s: string): nat
    requires AllDigits(s)
  {
    if s == [] then 0 else DecimalValue(s[..|s| - 1]) * 10 + DigitValue(s[|s| - 1])
  }

  lemma {:induction false} DecimalRoundTrip(n: nat)
    ensures DecimalValue(NatToDecimal(n)) == n
    decreases n
  {
    var s := NatToDecimal(n);
    if n >= 10 {
      DecimalRoundTrip(n / 10);
      assert s[..|s| - 1] == NatToDecimal(n / 10);
    }
  }

  /** A digit string as `toString` writes it: non-empty, with no leading
      zero. */
  predicate CanonicalNat(s: string) {
    |s| >= 1 && AllDigits(s) && (|s| > 1 ==> s[0] != '0')
  }

  /** An integer as `toString` writes it: canonical digits, after a minus
      sign only when the value is not zero. */
  predicate CanonicalInt(s: string) {
    || CanonicalNat(s)
    || (|s| >= 2 && s[0] == '-' && CanonicalNat(s[1..]) && s[1] != '0')
  }

  /** JavaScript's `toString()` on an integer value: the digits, after a
      minus sign when the value is negative. There is no leading zero and
      no `-0`. */
  function IntToString(n: int): (r: string)
    ensures n >= 0 ==> |r| >= 1 && AllDigits(r)
    ensures n >= 0 ==> (|r| > 1 ==> r[0] != '0')
    ensures n < 0 ==> |r| >= 2 && r[0] == '-' && AllDigits(r[1..])
    ensures n < 0 ==> r[1] != '0'
    ensures CanonicalInt(r)
  {
    assert n < 0 ==> ("-" + NatToDecimal(-n))[1..] == NatToDecimal(-n);
    if n < 0 then "-" + NatToDecimal(-n) else NatToDecimal(n)
  }

  /** Reads back what `IntToString` writes; the inverse used to state that no
      information is lost when identifiers become strings. */
  function ParseInt(s: string): Option<int> {
    if |s| > 1 && s[0] == '-' && AllDigits(s[1..]) then Some(0 - DecimalValue(s[1..]) as int)
    else if |s| > 0 && AllDigits(s) then Some(DecimalValue(s))
    else None
  }

  lemma IntToStringRoundTrip(n: int)
    ensures ParseInt(IntToString(n)) == Some(n)
  {
    var r := IntToString(n);
    if n < 0 {
      var d := NatToDecimal(-n);
      DecimalRoundTrip(-n);
      assert r == "-" + d && r[1..] == d;
      assert ParseInt(r) == Some(0 - DecimalValue(d) as int);
    } else {
      DecimalRoundTrip(n);
      assert r == NatToDecimal(n) && IsDigit(r[0]);
      assert ParseInt(r) == Some(DecimalValue(r));
    }
  }

  lemma IntToStringInjective(a: int, b: int)
    ensures IntToString(a) == IntToString(b) <==> a == b
  {
    IntToStringRoundTrip(a);
    IntToStringRoundTrip(b);
  }

  /** A canonical digit string is the decimal form of its own value. */
  lemma {:induction false} CanonicalNatValue(s: string)
    requires CanonicalNat(s)
    ensures NatToDecimal(DecimalValue(s)) == s
    decreases |s|
  {
    var init := s[..|s| - 1];
    var d := DigitValue(s[|s| - 1]);
    if |s| == 1 {
      assert init == [];
      assert DecimalValue(s) == d;
      assert [DigitChar(d)] == s;
    } else {
      assert init[0] == s[0];
      CanonicalNatValue(init);
      var v := DecimalValue(init);
      assert v > 0;
      assert DecimalValue(s) == v * 10 + d;
      assert (v * 10 + d) / 10 == v && (v * 10 + d) % 10 == d;
      assert s == init + [DigitChar(d)];
    }
  }

  /** `toString` is the only canonical spelling of an integer: a canonical
      string that reads back as `n` is `IntToString(n)`. */
  lemma CanonicalIntUnique(s: string, n: int)
    requires CanonicalInt(s) && ParseInt(s) == Some(n)
    ensures s == IntToString(n)
  {
    if CanonicalNat(s) {
      assert IsDigit(s[0]);
      CanonicalNatValue(s);
    } else {
      var t := s[1..];
      CanonicalNatValue(t);
      assert DecimalValue(t) > 0;
      assert s == "-" + t;
    }
  }
}
