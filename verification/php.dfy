/** PHP's byte strings and the handful of string builtins the licence gate uses:
    `empty()`, the `(string)` cast, `strtolower` and `str_replace` with an empty
    replacement. */
module Php {

  /** One byte of a PHP string. */
  newtype byte = b: int | 0 <= b < 256

  /** A PHP string is a sequence of bytes, not of characters. */
  type Bytes = seq<byte>

  /** PHP's `null` next to a value. */
  datatype Option<+T> = None | Some(value: T)

  /** A call that PHP aborts with an uncaught `TypeError`. */
  datatype Result<+T> = Ok(value: T) | TypeError

  const SPACE: byte := 32
  const PERCENT: byte := 37
  const PLUS: byte := 43
  const SEMICOLON: byte := 59
  const DIGIT_ZERO: byte := 48

  /** `empty($v)` on a string-or-null: true for null, "" and "0". */
  function IsEmpty(v: Option<Bytes>): (r: bool)
    ensures r <==> AsString(v) == [] || AsString(v) == [DIGIT_ZERO]
    ensures !r ==> v.Some? && |v.value| > 0
  {
    v == None || v == Some([]) || v == Some([DIGIT_ZERO])
  }

  /** The `(string)` cast on a string-or-null: null becomes "". */
  function AsString(v: Option<Bytes>): Bytes
  {
    match v
    case Some(s) => s
    case None => []
  }

  /** Lower-casing of one byte as `strtolower` does it: ASCII letters only. */
  function ToLowerByte(b: byte): byte
  {
    if 65 <= b <= 90 then b + 32 else b
  }

  /** `strtolower`: every byte lower-cased, length kept. */
  function ToLower(s: Bytes): (r: Bytes)
    ensures |r| == |s|
    ensures forall i | 0 <= i < |s| :: r[i] == ToLowerByte(s[i])
  {
    seq(|s|, i requires 0 <= i < |s| => ToLowerByte(s[i]))
  }

  /** A non-empty string is its first byte followed by the rest, also in
      front of any further text. */
  lemma HeadThenTail(a: Bytes, b: Bytes)
    requires |a| > 0
    ensures [a[0]] + a[1..] == a
    ensures [a[0]] + (a[1..] + b) == a + b
  {
  }

  /** A string is its first `k` bytes followed by the rest. */
  lemma PrefixThenRest(s: Bytes, k: nat)
    requires k <= |s|
    ensures s[..k] + s[k..] == s
  {
  }

  /** Every byte of the tail is a byte of the string. */
  lemma TailBytesIn(s: Bytes)
    requires |s| > 0
    ensures forall b | b in s[1..] :: b in s
  {
  }

  /** True when `pat` occurs in `s` starting at position `i`. */
  predicate OccursAt(s: Bytes, pat: Bytes, i: nat)
  {
    i + |pat| <= |s| && s[i..i + |pat|] == pat
  }

  /** `str_replace($pat, '', $s)`: scanning left to right, every leftmost
      occurrence of `pat` is cut out and scanning resumes after it; the text
      that closes up around a cut is not scanned again. */
  function RemoveAll(s: Bytes, pat: Bytes): (r: Bytes)
    requires |pat| > 0
    ensures |r| <= |s|
    ensures multiset(r) <= multiset(s)
    decreases |s|
  {
    if |s| == 0 then []
    else if pat <= s then
      assert s == s[..|pat|] + s[|pat|..];
      RemoveAll(s[|pat|..], pat)
    else
      assert s == [s[0]] + s[1..];
      [s[0]] + RemoveAll(s[1..], pat)
  }

  /** `str_replace` on a string that `pat` does not start: the first byte
      stays and the scan goes on from the second. */
  lemma RemoveAllKeepsFirst(s: Bytes, rest: Bytes, pat: Bytes)
    requires |pat| > 0 && |s| > 0 && !(pat <= s) && s[1..] == rest
    ensures RemoveAll(s, pat) == [s[0]] + RemoveAll(rest, pat)
  {
  }

  /** `str_replace` on a string that `pat` starts: the occurrence is cut and
      the scan goes on after it. */
  lemma RemoveAllCutsFront(pat: Bytes, t: Bytes)
    requires |pat| > 0
    ensures RemoveAll(pat + t, pat) == RemoveAll(t, pat)
  {
    var s := pat + t;
    assert s[..|pat|] == pat;
    assert s[|pat|..] == t;
  }

  /** A string in which `pat` does not occur is left as it is. */
  lemma {:induction false} RemoveAllAbsent(s: Bytes, pat: Bytes)
    requires |pat| > 0
    requires forall i: nat | i < |s| :: !OccursAt(s, pat, i)
    ensures RemoveAll(s, pat) == s
    decreases |s|
  {
    if |s| > 0 {
      assert !OccursAt(s, pat, 0);
      assert !(pat <= s);
      forall i: nat | i < |s[1..]|
        ensures !OccursAt(s[1..], pat, i)
      {
        assert !OccursAt(s, pat, i + 1);
        if i + |pat| <= |s[1..]| {
          assert s[1..][i..i + |pat|] == s[i + 1..i + 1 + |pat|];
        }
      }
      RemoveAllAbsent(s[1..], pat);
      assert s == [s[0]] + s[1..];
    }
  }

  /** A pattern that ends in a byte absent from `s` does not occur in `s`. */
  lemma LastByteAbsent(s: Bytes, pat: Bytes)
    requires |pat| > 0
    requires pat[|pat| - 1] !in s
    ensures forall i: nat | i < |s| :: !OccursAt(s, pat, i)
  {
    forall i: nat | i < |s|
      ensures !OccursAt(s, pat, i)
    {
      if i + |pat| <= |s| {
        assert s[i..i + |pat|][|pat| - 1] == s[i + |pat| - 1];
      }
    }
  }
}
