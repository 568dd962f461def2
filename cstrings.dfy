/** C-string primitives the control-channel client relies on: `strncmp` against a
    literal, `strchr` bounded by a terminator, and `snprintf` into a fixed buffer. */
module CStrings {

  datatype Option<T> = None | Some(value: T)

  const NUL: char := '\0'

  function Min(a: int, b: int): int { if a <= b then a else b }

  function Max(a: int, b: int): int { if a <= b then b else a }

  /** `strncmp(s, p, |p|) == 0` for a C string whose characters are `s` and whose
      terminator follows them, when `p` holds no NUL: the terminator or any
      embedded NUL in the first |p| characters is a mismatch. */
  predicate HasPrefix(s: seq<char>, p: seq<char>)
  {
    |p| <= |s| && s[..|p|] == p
  }

  /** End of the C string that starts at `from`: the first NUL at or after
      `from`, or |s| when the characters run up to the terminator. */
  function StrEnd(s: seq<char>, from: nat): (e: nat)
    requires from <= |s|
    decreases |s| - from
    ensures from <= e <= |s|
    ensures e < |s| ==> s[e] == NUL
    ensures forall j :: from <= j < e ==> s[j] != NUL
  {
    if from == |s| || s[from] == NUL then from else StrEnd(s, from + 1)
  }

  /** `strchr(s + from, c)` for a character `c` other than NUL: the first
      occurrence of `c` in the C string starting at `from`. */
  function Find(s: seq<char>, from: nat, c: char): (r: Option<nat>)
    requires from <= |s|
    requires c != NUL
    decreases |s| - from
    ensures r.Some? ==> from <= r.value < StrEnd(s, from) && s[r.value] == c
    ensures r.Some? ==> forall j :: from <= j < r.value ==> s[j] != c
    ensures r.None? ==> forall j :: from <= j < StrEnd(s, from) ==> s[j] != c
  {
    if from == |s| || s[from] == NUL then None
    else if s[from] == c then Some(from)
    else Find(s, from + 1, c)
  }

  /** A `c` preceded (from `from` on) by neither `c` nor NUL is what `strchr` finds. */
  lemma FindAt(s: seq<char>, from: nat, k: nat, c: char)
    requires from <= k < |s| && c != NUL && s[k] == c
    requires forall j :: from <= j < k ==> s[j] != c && s[j] != NUL
    ensures Find(s, from, c) == Some(k)
  {
    assert k < StrEnd(s, from);
  }

  /** With no `c` before the terminator, `strchr` finds nothing. */
  lemma FindAbsent(s: seq<char>, from: nat, c: char)
    requires from <= |s| && c != NUL
    requires forall j :: from <= j < |s| ==> s[j] != c
    ensures Find(s, from, c) == None
  {
  }

  /** `b`, a whole buffer, holds `text` as `snprintf(b, |b|, "%s", text)` leaves it:
      the first min(|text|, |b| - 1) characters of `text`, then a terminator. */
  predicate HoldsCString(b: seq<char>, text: seq<char>)
  {
    1 <= |b| &&
    var k := Min(|text|, |b| - 1);
    b[..k] == text[..k] && b[k] == NUL
  }

  /** A text shorter than the buffer is held whole, followed by its terminator. */
  lemma HoldsWhole(b: seq<char>, t: seq<char>)
    requires |t| < |b| && b[..|t|] == t && b[|t|] == NUL
    ensures HoldsCString(b, t)
  {
    assert t[..|t|] == t;
  }

  /** `snprintf(buf, buf.Length, "%s", text)`: writes what fits, terminates it, and
      returns the untruncated length; into a buffer of size 0 it writes nothing. */
  method FormatInto(buf: array<char>, text: seq<char>) returns (n: int)
    requires NUL !in text
    modifies buf
    ensures n == |text|
    ensures 1 <= buf.Length ==> HoldsCString(buf[..], text)
    ensures forall k :: Min(|text|, buf.Length - 1) < k < buf.Length ==> buf[k] == old(buf[k])
  {
    if buf.Length == 0 {
      return |text|;
    }
    var k := Min(|text|, buf.Length - 1);
    var i := 0;
    while i < k
      invariant 0 <= i <= k
      invariant forall j :: 0 <= j < i ==> buf[j] == text[j]
      invariant forall j :: i <= j < buf.Length ==> buf[j] == old(buf[j])
    {
      buf[i] := text[i];
      i := i + 1;
    }
    buf[k] := NUL;
    assert buf[..k] == text[..k];
    n := |text|;
  }
}
