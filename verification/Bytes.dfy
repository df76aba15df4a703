/** Bytes, the machine integer width, and first-occurrence search. */
module Bytes {
  datatype Option<+T> = None | Some(value: T)

  newtype byte = x: int | 0 <= x < 256
  type bytes = seq<byte>

  const CR_LF: bytes := [13, 10]
  const CR_LF_2: bytes := [13, 10, 13, 10]

  /** Number of values of a 64-bit `usize`; release builds wrap around here. */
  const USIZE: nat := 0x1_0000_0000_0000_0000

  predicate At(s: bytes, pat: bytes, i: nat) {
    i + |pat| <= |s| && s[i..i + |pat|] == pat
  }

  /** Position of the first occurrence of `pat` at or after `from`. */
  function FindFrom(s: bytes, pat: bytes, from: nat): (r: Option<nat>)
    ensures r.Some? ==> from <= r.value && At(s, pat, r.value)
    ensures r.Some? ==> forall j :: from <= j < r.value ==> !At(s, pat, j)
    ensures r.None? ==> forall j :: from <= j ==> !At(s, pat, j)
    decreases |s| - from
  {
    if from + |pat| > |s| then None
    else if At(s, pat, from) then Some(from)
    else FindFrom(s, pat, from + 1)
  }

  function Find(s: bytes, pat: bytes): (r: Option<nat>)
    ensures r.Some? ==> At(s, pat, r.value)
    ensures r.Some? ==> forall j :: 0 <= j < r.value ==> !At(s, pat, j)
    ensures r.None? ==> forall j: nat :: !At(s, pat, j)
  {
    FindFrom(s, pat, 0)
  }

  lemma FindIsFindFrom(s: bytes, pat: bytes)
    ensures Find(s, pat) == FindFrom(s, pat, 0)
  {
  }

  lemma AtPrefix(s: bytes, t: bytes, pat: bytes, i: nat)
    requires i + |pat| <= |s|
    ensures At(s + t, pat, i) == At(s, pat, i)
  {
    assert (s + t)[i..i + |pat|] == s[i..i + |pat|];
  }

  /** More input never moves a first occurrence that was already visible. */
  lemma FindStable(s: bytes, t: bytes, pat: bytes, from: nat)
    ensures FindFrom(s, pat, from).Some? ==> FindFrom(s + t, pat, from) == FindFrom(s, pat, from)
    ensures FindFrom(s + t, pat, from).Some? && FindFrom(s + t, pat, from).value + |pat| <= |s|
            ==> FindFrom(s, pat, from) == FindFrom(s + t, pat, from)
  {
    var a, b := FindFrom(s, pat, from), FindFrom(s + t, pat, from);
    if a.Some? {
      AtPrefix(s, t, pat, a.value);
      if b.Some? && b.value < a.value {
        AtPrefix(s, t, pat, b.value);
      }
    }
    if b.Some? && b.value + |pat| <= |s| {
      AtPrefix(s, t, pat, b.value);
    }
  }

  lemma NoCrNoCrLf(s: bytes, i: nat)
    requires i + 2 <= |s| && s[i] != 13
    ensures !At(s, CR_LF, i)
  {
    assert s[i..i + 2][0] == s[i];
    assert CR_LF[0] == 13;
  }

  /** The first CRLF behind a line without CR is right at its end. */
  lemma FindAfterPlain(before: bytes, line: bytes, rest: bytes)
    requires forall i :: 0 <= i < |line| ==> line[i] != 13
    ensures FindFrom(before + line + CR_LF + rest, CR_LF, |before|) == Some(|before| + |line|)
  {
    var buf := before + line + CR_LF + rest;
    var end := |before| + |line|;
    assert buf[end..end + 2] == CR_LF;
    assert At(buf, CR_LF, end);
    forall j | |before| <= j < end
      ensures !At(buf, CR_LF, j)
    {
      NoCrNoCrLf(buf, j);
    }
  }

  function Flatten<T>(parts: seq<seq<T>>): seq<T> {
    if parts == [] then [] else parts[0] + Flatten(parts[1..])
  }

  lemma FlattenAppend<T>(a: seq<seq<T>>, b: seq<seq<T>>)
    ensures Flatten(a + b) == Flatten(a) + Flatten(b)
  {
    if a == [] {
      assert a + b == b;
    } else {
      assert (a + b)[1..] == a[1..] + b;
      FlattenAppend(a[1..], b);
    }
  }

  lemma FlattenSnoc<T>(a: seq<seq<T>>, x: seq<T>)
    ensures Flatten(a + [x]) == Flatten(a) + x
  {
    FlattenAppend(a, [x]);
    assert Flatten([x]) == x + Flatten<T>([]);
  }

  lemma SharedPrefix<T>(a: seq<T>, x: seq<T>, b: seq<T>, y: seq<T>)
    requires a + x == b + y && |a| <= |b|
    ensures a <= b
  {
    assert a == (a + x)[..|a|] && (b + y)[..|a|] == b[..|a|];
  }

  lemma Rejoin(t: bytes, data: bytes, k: nat)
    requires k <= |data|
    ensures t + data[..k] + data[k..] == t + data
  {
  }

  lemma ConcatFrom(t: bytes, at: nat, a: bytes, b: bytes)
    requires at <= |t|
    ensures (t + a)[at..] + b == t[at..] + (a + b)
    ensures t + a + b == t + (a + b)
  {
  }
}
