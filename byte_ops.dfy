/** memset, memcpy and memmove on a character array, each specified as overwriting one
    window of the array's contents, with the sequence lemmas that compose such writes. */
module ByteOps {

  /** `n` copies of `c`. */
  function Repeat(c: char, n: nat): (r: string)
    ensures |r| == n
    ensures forall i :: 0 <= i < n ==> r[i] == c
  {
    seq(n, _ => c)
  }

  /** `a` and `b` have the same length and agree everywhere outside the window [lo, hi). */
  predicate SameOutside(a: seq<char>, b: seq<char>, lo: int, hi: int) {
    |a| == |b| && 0 <= lo <= hi <= |a| && a[..lo] == b[..lo] && a[hi..] == b[hi..]
  }

  /** `a` with the bytes at [at, at + |s|) replaced by `s`, one byte at a time. */
  function Overwrite(a: seq<char>, at: int, s: seq<char>): (r: seq<char>)
    requires 0 <= at && at + |s| <= |a|
    ensures |r| == |a|
    decreases |s|
  {
    if s == [] then a else Overwrite(a[at := s[0]], at + 1, s[1..])
  }

  /** The overwrite is the splice of `s` into `a`. */
  lemma {:induction false} Spliced(a: seq<char>, at: int, s: seq<char>)
    requires 0 <= at && at + |s| <= |a|
    ensures Overwrite(a, at, s) == a[..at] + s + a[at + |s|..]
    decreases |s|
  {
    if s != [] {
      var b := a[at := s[0]];
      Spliced(b, at + 1, s[1..]);
      assert b[..at + 1] == a[..at] + [s[0]];
      assert b[at + 1 + |s[1..]|..] == a[at + |s|..];
      assert [s[0]] + s[1..] == s;
    }
  }

  /** After an overwrite the window holds `s` and nothing outside it has changed. */
  lemma Overwritten(a: seq<char>, at: int, s: seq<char>)
    requires 0 <= at && at + |s| <= |a|
    ensures Overwrite(a, at, s)[at..at + |s|] == s
    ensures SameOutside(a, Overwrite(a, at, s), at, at + |s|)
  {
    Spliced(a, at, s);
    var r := Overwrite(a, at, s);
    assert r[..at] == a[..at];
    assert r[at..at + |s|] == s;
    assert r[at + |s|..] == a[at + |s|..];
  }

  /** Up to the end of the write, the result is what came before it followed by `s`. */
  lemma OverwriteExtends(a: seq<char>, at: int, s: seq<char>)
    requires 0 <= at && at + |s| <= |a|
    ensures Overwrite(a, at, s)[..at + |s|] == a[..at] + s
  {
    Spliced(a, at, s);
    assert (a[..at] + s + a[at + |s|..])[..at + |s|] == a[..at] + s;
  }

  /** The middle part of a concatenation is recovered by slicing at its offsets. */
  lemma MiddleSlice(x: seq<char>, y: seq<char>, z: seq<char>)
    ensures (x + y + z)[|x|..|x| + |y|] == y
  {
  }

  /** The last part of a concatenation is recovered by slicing at its offset. */
  lemma LastSlice(x: seq<char>, y: seq<char>)
    ensures (x + y)[|x|..|x| + |y|] == y
  {
  }

  /** A slice outside the changed window is unchanged. */
  lemma KeptSlice(a: seq<char>, b: seq<char>, lo: int, hi: int, x: int, y: int)
    requires SameOutside(a, b, lo, hi)
    requires 0 <= x <= y <= |a| && (y <= lo || hi <= x)
    ensures a[x..y] == b[x..y]
  {
    if y <= lo {
      assert a[x..y] == a[..lo][x..y];
      assert b[x..y] == b[..lo][x..y];
    } else {
      forall i | x <= i < y
        ensures a[i] == b[i]
      {
        assert a[i] == a[hi..][i - hi] && b[i] == b[hi..][i - hi];
      }
    }
  }

  lemma SameOutsideTrans(a: seq<char>, b: seq<char>, c: seq<char>, lo: int, hi: int)
    requires SameOutside(a, b, lo, hi) && SameOutside(b, c, lo, hi)
    ensures SameOutside(a, c, lo, hi)
  {
  }

  /** A window that contains [lo, hi) also frames a change confined to [lo, hi). */
  lemma WidenWindow(a: seq<char>, b: seq<char>, lo: int, hi: int, lo2: int, hi2: int)
    requires SameOutside(a, b, lo, hi)
    requires 0 <= lo2 <= lo && hi <= hi2 <= |a|
    ensures SameOutside(a, b, lo2, hi2)
  {
    assert a[..lo2] == a[..lo][..lo2] && b[..lo2] == b[..lo][..lo2];
    assert a[hi2..] == a[hi..][hi2 - hi..] && b[hi2..] == b[hi..][hi2 - hi..];
  }

  /** An overwrite inside the window [lo, hi) changes nothing outside it. */
  lemma OverwriteWithin(a: seq<char>, at: int, s: seq<char>, lo: int, hi: int)
    requires 0 <= lo <= at && at + |s| <= hi <= |a|
    ensures SameOutside(a, Overwrite(a, at, s), lo, hi)
  {
    Overwritten(a, at, s);
    WidenWindow(a, Overwrite(a, at, s), at, at + |s|, lo, hi);
  }

  /** Writing what is already there changes nothing. */
  lemma OverwriteSame(a: seq<char>, at: int, s: seq<char>)
    requires 0 <= at && at + |s| <= |a| && a[at..at + |s|] == s
    ensures Overwrite(a, at, s) == a
  {
    Spliced(a, at, s);
    assert a == a[..at] + a[at..at + |s|] + a[at + |s|..];
  }

  /** Writing `s` and then `t` right after it is writing `s + t`. */
  lemma OverwriteThenAfter(a: seq<char>, at: int, s: seq<char>, t: seq<char>)
    requires 0 <= at && at + |s| + |t| <= |a|
    ensures Overwrite(Overwrite(a, at, s), at + |s|, t) == Overwrite(a, at, s + t)
  {
    Spliced(a, at, s);
    Spliced(Overwrite(a, at, s), at + |s|, t);
    Spliced(a, at, s + t);
  }

  /** Writing `t` and then `s` right before it is writing `s + t`. */
  lemma OverwriteThenBefore(a: seq<char>, at: int, s: seq<char>, t: seq<char>)
    requires 0 <= at && at + |s| + |t| <= |a|
    ensures Overwrite(Overwrite(a, at + |s|, t), at, s) == Overwrite(a, at, s + t)
  {
    Spliced(a, at + |s|, t);
    Spliced(Overwrite(a, at + |s|, t), at, s);
    Spliced(a, at, s + t);
  }

  /** A later write that covers an earlier one erases it. */
  lemma OverwriteAbsorbs(a: seq<char>, x: int, s: seq<char>, at: int, t: seq<char>)
    requires 0 <= at <= x && x + |s| <= at + |t| <= |a|
    ensures Overwrite(Overwrite(a, x, s), at, t) == Overwrite(a, at, t)
  {
    var b := Overwrite(a, x, s);
    Overwritten(a, x, s);
    WidenWindow(a, b, x, x + |s|, at, at + |t|);
    Spliced(b, at, t);
    Spliced(a, at, t);
  }

  /** OverwriteAbsorbs, inside a window [at, hi) that holds the second write. */
  lemma AbsorbedWithin(a: seq<char>, x: int, s: seq<char>, at: int, t: seq<char>, hi: int)
    requires 0 <= at <= x && x + |s| <= at + |t| <= hi <= |a|
    ensures Overwrite(Overwrite(a, x, s), at, t) == Overwrite(a, at, t)
    ensures SameOutside(a, Overwrite(a, at, t), at, hi)
  {
    OverwriteAbsorbs(a, x, s, at, t);
    OverwriteWithin(a, at, t, at, hi);
  }

  /** Writing `s` in front of bytes `ds` already in place is writing `s + ds`. */
  lemma WriteBefore(a: seq<char>, at: int, s: seq<char>, ds: seq<char>)
    requires 0 <= at && at + |s| + |ds| <= |a|
    requires a[at + |s|..at + |s| + |ds|] == ds
    ensures Overwrite(a, at, s) == Overwrite(a, at, s + ds)
  {
    var b := Overwrite(a, at, s);
    Overwritten(a, at, s);
    KeptSlice(a, b, at, at + |s|, at + |s|, at + |s| + |ds|);
    OverwriteSame(b, at + |s|, ds);
    OverwriteThenAfter(a, at, s, ds);
  }

  /** Writing `t` after and `s` before bytes `ds` already in place is writing `s + ds + t`. */
  lemma WriteAround(a: seq<char>, at: int, s: seq<char>, ds: seq<char>, t: seq<char>)
    requires 0 <= at && at + |s| + |ds| + |t| <= |a|
    requires a[at + |s|..at + |s| + |ds|] == ds
    ensures Overwrite(Overwrite(a, at + |s| + |ds|, t), at, s) == Overwrite(a, at, s + ds + t)
  {
    var p := at + |s| + |ds|;
    var q := p + |t|;
    Spliced(a, p, t);
    var b := a[..p] + t + a[q..];
    Spliced(b, at, s);
    Spliced(a, at, s + ds + t);
    assert b[..at] == a[..at];
    assert b[at + |s|..] == ds + t + a[q..] by {
      assert a[..p][at + |s|..] == ds;
    }
    assert a[..at] + s + (ds + t + a[q..]) == a[..at] + (s + ds + t) + a[q..];
  }

  /** memset(dest + at, c, n). */
  method Fill(dest: array<char>, at: nat, n: nat, c: char)
    requires at + n <= dest.Length
    modifies dest
    ensures dest[..] == Overwrite(old(dest[..]), at, Repeat(c, n))
  {
    forall i | at <= i < at + n {
      dest[i] := c;
    }
    Spliced(old(dest[..]), at, Repeat(c, n));
    assert dest[..] == Overwrite(old(dest[..]), at, Repeat(c, n));
  }

  /** memcpy(dest + at, s, |s|). */
  method Copy(dest: array<char>, at: nat, s: string)
    requires at + |s| <= dest.Length
    modifies dest
    ensures dest[..] == Overwrite(old(dest[..]), at, s)
  {
    forall i | at <= i < at + |s| {
      dest[i] := s[i - at];
    }
    Spliced(old(dest[..]), at, s);
    assert dest[..] == Overwrite(old(dest[..]), at, s);
  }

  /** memmove(dest + to, dest + from, n): the bytes are copied as if through a temporary. */
  method Move(dest: array<char>, to: nat, from: nat, n: nat)
    requires to + n <= dest.Length && from + n <= dest.Length
    modifies dest
    ensures dest[..] == Overwrite(old(dest[..]), to, old(dest[..])[from..from + n])
  {
    var src := dest[from..from + n];
    forall i | to <= i < to + n {
      dest[i] := src[i - to];
    }
    Spliced(old(dest[..]), to, src);
    assert dest[..] == Overwrite(old(dest[..]), to, src);
  }
}
