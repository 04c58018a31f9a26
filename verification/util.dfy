/** Shared vocabulary: optional values, bytes, and the sequence operations
    (search, split, join, filtering, decimal rendering) that both the firmware
    and the simulator build on. */
module Util {

  datatype Option<+T> = None | Some(value: T)

  newtype byte = x: int | 0 <= x < 256

  type Bytes = seq<byte>

  const NUL: byte := 0

  /** Every character is 7-bit ASCII. */
  predicate IsAscii(s: string)
  {
    forall i | 0 <= i < |s| :: s[i] as int < 128
  }

  /** The bytes of an ASCII literal. */
  function Ascii(s: string): (r: Bytes)
    requires IsAscii(s)
    ensures |r| == |s|
    ensures forall i | 0 <= i < |s| :: r[i] as int == s[i] as int
  {
    seq(|s|, i requires 0 <= i < |s| => s[i] as int as byte)
  }

  lemma AsciiAppend(a: string, b: string)
    requires IsAscii(a) && IsAscii(b)
    ensures IsAscii(a + b)
    ensures Ascii(a + b) == Ascii(a) + Ascii(b)
  {
    var ab := a + b;
    forall i | 0 <= i < |ab| ensures ab[i] as int < 128 {
      if i < |a| { assert ab[i] == a[i]; } else { assert ab[i] == b[i - |a|]; }
    }
  }

  /** A character absent from an ASCII string is absent from its bytes. */
  lemma AsciiExcludes(s: string, c: char)
    requires IsAscii(s) && c as int < 128 && c !in s
    ensures (c as int as byte) !in Ascii(s)
  {
    forall i | 0 <= i < |s| ensures Ascii(s)[i] != c as int as byte {
      assert s[i] != c;
    }
  }

  /** `p` is a prefix of `s`: what `strncmp(s, p, |p|) == 0` tests on a C string. */
  predicate IsPrefix<T(==)>(p: seq<T>, s: seq<T>)
  {
    |p| <= |s| && s[..|p|] == p
  }

  /** Index of the first occurrence of `x` in `s`, or `|s|` when there is none. */
  function IndexOf<T(==)>(s: seq<T>, x: T): (k: nat)
    ensures k <= |s|
    ensures forall j | 0 <= j < k :: s[j] != x
    ensures k < |s| ==> s[k] == x
    ensures k == |s| <==> x !in s
    decreases |s|
  {
    if |s| == 0 then 0
    else if s[0] == x then 0
    else
      var k' := IndexOf(s[1..], x);
      assert s[1..][..k'] == s[1..k' + 1];
      assert s[..k' + 1] == [s[0]] + s[1..k' + 1];
      1 + k'
  }

  /** `pat` occurs in `s` at position `k`. */
  predicate OccursAt<T(==)>(pat: seq<T>, s: seq<T>, k: nat)
  {
    k + |pat| <= |s| && s[k..k + |pat|] == pat
  }

  /** Position of the first occurrence of `pat` in `s` (C's `strstr`). */
  function Find<T(==)>(pat: seq<T>, s: seq<T>): (r: Option<nat>)
    ensures r.Some? ==> OccursAt(pat, s, r.value)
    ensures r.Some? ==> forall j | 0 <= j < r.value :: !OccursAt(pat, s, j)
    ensures r.None? ==> forall j | 0 <= j <= |s| :: !OccursAt(pat, s, j)
    decreases |s|
  {
    if |s| < |pat| then None
    else if s[..|pat|] == pat then Some(0)
    else
      var rest := Find(pat, s[1..]);
      assert forall j | 1 <= j <= |s| :: OccursAt(pat, s, j) == OccursAt(pat, s[1..], j - 1) by {
        forall j | 1 <= j <= |s| ensures OccursAt(pat, s, j) == OccursAt(pat, s[1..], j - 1) {
          if j + |pat| <= |s| {
            SliceOfTail(s, j, |pat|);
          }
        }
      }
      match rest
      case None => None
      case Some(k) => Some(k + 1)
  }

  lemma SliceOfTail<T>(s: seq<T>, j: nat, n: nat)
    requires 1 <= j && j + n <= |s|
    ensures s[j..j + n] == s[1..][j - 1..j - 1 + n]
  {
    var a := s[j..j + n];
    var b := s[1..][j - 1..j - 1 + n];
    forall i | 0 <= i < n ensures a[i] == b[i] {
      assert a[i] == s[j + i];
    }
  }

  /** Splits `s` at the first `d`, as `strchr` + overwrite in C and
      `str.split(d, 1)` in Python do; `None` when `d` does not occur. */
  function SplitOnce<T(==)>(s: seq<T>, d: T): (r: Option<(seq<T>, seq<T>)>)
    ensures r.None? <==> d !in s
    ensures r.Some? ==> s == r.value.0 + [d] + r.value.1 && d !in r.value.0
  {
    var k := IndexOf(s, d);
    if k == |s| then None
    else
      assert s == s[..k] + [d] + s[k + 1..];
      Some((s[..k], s[k + 1..]))
  }

  lemma SplitOnceAt<T>(a: seq<T>, d: T, b: seq<T>)
    requires d !in a
    ensures SplitOnce(a + [d] + b, d) == Some((a, b))
  {
    var s := a + [d] + b;
    IndexAfterFreePrefix(a, d, b);
    assert s[..|a|] == a;
    assert s[|a| + 1..] == b;
  }

  /** Every piece between occurrences of `d`, empty pieces included
      (Python's `str.split(d)`). */
  function Split<T(==)>(s: seq<T>, d: T): (r: seq<seq<T>>)
    ensures |r| >= 1
    ensures forall i | 0 <= i < |r| :: d !in r[i]
    ensures forall i, x | 0 <= i < |r| && x in r[i] :: x in s
    decreases |s|
  {
    var k := IndexOf(s, d);
    if k == |s| then [s]
    else
      var rest := Split(s[k + 1..], d);
      assert forall i, x | 0 <= i < |rest| && x in rest[i] :: x in s by {
        forall i, x | 0 <= i < |rest| && x in rest[i] ensures x in s {
          var tail := s[k + 1..];
          assert x in tail;
          var j :| 0 <= j < |tail| && tail[j] == x;
          assert s[k + 1 + j] == x;
        }
      }
      [s[..k]] + rest
  }

  /** Pieces glued back together with `d` between consecutive ones. */
  function Join<T>(parts: seq<seq<T>>, d: T): seq<T>
    decreases |parts|
  {
    if |parts| == 0 then []
    else if |parts| == 1 then parts[0]
    else parts[0] + [d] + Join(parts[1..], d)
  }

  lemma {:induction false} JoinSplit<T>(s: seq<T>, d: T)
    ensures Join(Split(s, d), d) == s
    decreases |s|
  {
    var k := IndexOf(s, d);
    if k < |s| {
      var rest := s[k + 1..];
      SplitStep(s, d);
      JoinSplit(rest, d);
      JoinCons(s[..k], Split(rest, d), d);
      CutAt(s, k);
    }
  }

  lemma CutAt<T>(s: seq<T>, k: nat)
    requires k < |s|
    ensures s == s[..k] + [s[k]] + s[k + 1..]
  {
  }

  lemma SplitStep<T>(s: seq<T>, d: T)
    requires IndexOf(s, d) < |s|
    ensures Split(s, d) == [s[..IndexOf(s, d)]] + Split(s[IndexOf(s, d) + 1..], d)
  {
  }

  lemma JoinCons<T>(first: seq<T>, parts: seq<seq<T>>, d: T)
    requires |parts| >= 1
    ensures Join([first] + parts, d) == first + [d] + Join(parts, d)
  {
    assert ([first] + parts)[1..] == parts;
  }

  lemma {:induction false} SplitJoin<T>(parts: seq<seq<T>>, d: T)
    requires |parts| >= 1
    requires forall i | 0 <= i < |parts| :: d !in parts[i]
    ensures Split(Join(parts, d), d) == parts
    decreases |parts|
  {
    if |parts| > 1 {
      var a := parts[0];
      var rest := Join(parts[1..], d);
      var s := a + [d] + rest;
      assert Join(parts, d) == s;
      IndexAfterFreePrefix(a, d, rest);
      assert s[..|a|] == a;
      assert s[|a| + 1..] == rest;
      assert Split(s, d) == [a] + Split(rest, d);
      SplitJoin(parts[1..], d);
      assert parts == [a] + parts[1..];
    } else {
      assert Join(parts, d) == parts[0];
    }
  }

  lemma IndexAfterFreePrefix<T>(a: seq<T>, d: T, b: seq<T>)
    requires d !in a
    ensures IndexOf(a + [d] + b, d) == |a|
  {
    var s := a + [d] + b;
    assert s[..|a|] == a;
    assert s[|a|] == d;
  }

  /** The non-empty elements of `parts`, in order. */
  function NonEmpty<T>(parts: seq<seq<T>>): (r: seq<seq<T>>)
    ensures |r| <= |parts|
    ensures forall i | 0 <= i < |r| :: |r[i]| > 0 && r[i] in parts
    decreases |parts|
  {
    if |parts| == 0 then []
    else if |parts[0]| == 0 then NonEmpty(parts[1..])
    else [parts[0]] + NonEmpty(parts[1..])
  }

  lemma {:induction false} NonEmptyKeepsAll<T>(parts: seq<seq<T>>)
    requires forall i | 0 <= i < |parts| :: |parts[i]| > 0
    ensures NonEmpty(parts) == parts
    decreases |parts|
  {
    if |parts| > 0 {
      NonEmptyKeepsAll(parts[1..]);
    }
  }

  lemma {:induction false} NonEmptyElements<T>(parts: seq<seq<T>>, x: seq<T>)
    ensures x in NonEmpty(parts) <==> x in parts && |x| > 0
    decreases |parts|
  {
    if |parts| > 0 {
      NonEmptyElements(parts[1..], x);
      assert parts == [parts[0]] + parts[1..];
    }
  }

  /** Dropping the empty pieces works piece by piece and keeps the order. */
  lemma {:induction false} NonEmptyAppend<T>(a: seq<seq<T>>, b: seq<seq<T>>)
    ensures NonEmpty(a + b) == NonEmpty(a) + NonEmpty(b)
    decreases |a|
  {
    if |a| > 0 {
      NonEmptyAppend(a[1..], b);
      assert (a + b)[1..] == a[1..] + b;
    } else {
      assert a + b == b;
    }
  }

  /** `s` with every element equal to `x` removed (Python's `replace(x, '')`). */
  function RemoveAll<T(==)>(s: seq<T>, x: T): (r: seq<T>)
    ensures x !in r
    ensures |r| <= |s|
    ensures x !in s ==> r == s
    decreases |s|
  {
    if |s| == 0 then []
    else if s[0] == x then RemoveAll(s[1..], x)
    else [s[0]] + RemoveAll(s[1..], x)
  }

  lemma {:induction false} RemoveAllCount<T>(s: seq<T>, x: T)
    ensures |RemoveAll(s, x)| == |s| - multiset(s)[x]
    ensures forall y | y != x :: multiset(RemoveAll(s, x))[y] == multiset(s)[y]
    decreases |s|
  {
    if |s| > 0 {
      RemoveAllCount(s[1..], x);
      assert s == [s[0]] + s[1..];
    }
  }

  lemma {:induction false} RemoveAllAppend<T>(a: seq<T>, b: seq<T>, x: T)
    ensures RemoveAll(a + b, x) == RemoveAll(a, x) + RemoveAll(b, x)
    decreases |a|
  {
    if |a| > 0 {
      RemoveAllAppend(a[1..], b, x);
      assert (a + b)[1..] == a[1..] + b;
    } else {
      assert a + b == b;
    }
  }

  /* ---------------- decimal numerals (`%d`) ---------------- */

  predicate IsDigit(b: byte)
  {
    48 <= b as int <= 57
  }

  function Digit(n: nat): (b: byte)
    requires n < 10
    ensures IsDigit(b)
  {
    (48 + n) as byte
  }

  /** The ASCII decimal numeral of `n`, most significant digit first, with no
      leading zero. */
  function Decimal(n: nat): (r: Bytes)
    ensures |r| >= 1
    ensures forall i | 0 <= i < |r| :: IsDigit(r[i])
    ensures |r| > 1 ==> r[0] as int != 48
    decreases n
  {
    if n < 10 then [Digit(n)]
    else Decimal(n / 10) + [Digit(n % 10)]
  }

  /** The value of a string of decimal digits. */
  function DigitsValue(ds: Bytes): nat
    requires forall i | 0 <= i < |ds| :: IsDigit(ds[i])
    decreases |ds|
  {
    if |ds| == 0 then 0
    else
      assert IsDigit(ds[|ds| - 1]);
      10 * DigitsValue(ds[..|ds| - 1]) + (ds[|ds| - 1] as int - 48)
  }

  lemma {:induction false} DecimalValue(n: nat)
    ensures DigitsValue(Decimal(n)) == n
    decreases n
  {
    if n >= 10 {
      DecimalValue(n / 10);
      var r := Decimal(n);
      assert r[..|r| - 1] == Decimal(n / 10);
    }
  }

  /** Length of the run of decimal digits at the start of `s`. */
  function DigitRun(s: Bytes): (k: nat)
    ensures k <= |s|
    ensures forall i | 0 <= i < k :: IsDigit(s[i])
    ensures k < |s| ==> !IsDigit(s[k])
    decreases |s|
  {
    if |s| == 0 || !IsDigit(s[0]) then 0
    else 1 + DigitRun(s[1..])
  }

  lemma DigitRunOfDigitsThen(ds: Bytes, rest: Bytes)
    requires forall i | 0 <= i < |ds| :: IsDigit(ds[i])
    requires |rest| > 0 && !IsDigit(rest[0])
    ensures DigitRun(ds + rest) == |ds|
  {
    var s := ds + rest;
    assert s[..|ds|] == ds;
    assert s[|ds|] == rest[0];
  }
}
