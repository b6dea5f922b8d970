/** Sequence helpers shared by several plugins. */
module Seqs {
  /** The sequence read backwards (list.reverse(), reversed()). */
  function Reversed<T>(s: seq<T>): (r: seq<T>)
    ensures |r| == |s| && forall i :: 0 <= i < |s| ==> r[i] == s[|s| - 1 - i]
  {
    if s == [] then [] else Reversed(s[1..]) + [s[0]]
  }

  lemma ReversedReversed<T>(s: seq<T>)
    ensures Reversed(Reversed(s)) == s
  {
    var r := Reversed(Reversed(s));
    assert |r| == |s|;
    forall i | 0 <= i < |s| ensures r[i] == s[i] {
      assert r[i] == Reversed(s)[|s| - 1 - i];
    }
  }

  lemma ConcatAssoc<T>(a: seq<T>, b: seq<T>, c: seq<T>)
    ensures (a + b) + c == a + (b + c)
  {
  }

  /** A sequence is its three consecutive slices put back together. */
  lemma SliceThree<T>(s: seq<T>, n: nat, m: nat)
    requires n <= m <= |s|
    ensures s[..n] + s[n..m] + s[m..] == s
  {
    var t := s[..n] + s[n..m] + s[m..];
    assert |t| == |s|;
    forall k | 0 <= k < |s| ensures t[k] == s[k] {
      if k < n {
      } else if k < m {
        assert t[k] == s[n..m][k - n];
      } else {
        assert t[k] == s[m..][k - m];
      }
    }
  }

  /** Dropping the first element of a cons gives its tail. */
  lemma ConsTail<T>(x: T, t: seq<T>)
    ensures ([x] + t)[1..] == t
  {
    var u := ([x] + t)[1..];
    assert |u| == |t|;
    forall k | 0 <= k < |t| ensures u[k] == t[k] {
      assert u[k] == ([x] + t)[k + 1];
    }
  }

  /** A slice is its three consecutive sub-slices put back together. */
  lemma SliceParts<T>(buf: seq<T>, pos: int, i: int, j: int, k: int)
    requires 0 <= pos <= i <= j <= k <= |buf|
    ensures buf[pos..k] == buf[pos..i] + buf[i..j] + buf[j..k]
  {
    var t, u := buf[pos..k], buf[pos..i] + buf[i..j] + buf[j..k];
    assert |t| == |u|;
    forall n | 0 <= n < |t| ensures t[n] == u[n] {
      if n < i - pos {
      } else if n < j - pos {
        assert u[n] == buf[i..j][n - (i - pos)];
      } else {
        assert u[n] == buf[j..k][n - (j - pos)];
      }
    }
  }

  /** A slice of a slice is a slice of the original. */
  lemma SliceOfSlice<T>(s: seq<T>, lo: int, hi: int, i: int, j: int)
    requires 0 <= lo <= hi <= |s| && 0 <= i <= j <= hi - lo
    ensures s[lo..hi][i..j] == s[lo + i..lo + j]
  {
    var u, v := s[lo..hi][i..j], s[lo + i..lo + j];
    assert |u| == |v|;
    forall n | 0 <= n < |u| ensures u[n] == v[n] {
      assert u[n] == s[lo..hi][i + n];
    }
  }

  /** A suffix is its three consecutive parts put back together. */
  lemma SuffixParts<T>(buf: seq<T>, pos: int, i: int, j: int)
    requires 0 <= pos <= i <= j <= |buf|
    ensures buf[pos..] == buf[pos..i] + buf[i..j] + buf[j..]
  {
    var t, u := buf[pos..], buf[pos..i] + buf[i..j] + buf[j..];
    assert |t| == |u|;
    forall n | 0 <= n < |t| ensures t[n] == u[n] {
      if n < i - pos {
      } else if n < j - pos {
        assert u[n] == buf[i..j][n - (i - pos)];
      } else {
        assert u[n] == buf[j..][n - (j - pos)];
      }
    }
  }

  /** Four concatenated sequences, regrouped after the first. */
  lemma RegroupFour<T>(a: seq<T>, b: seq<T>, c: seq<T>, d: seq<T>)
    ensures (a + b) + c + d == a + (b + c + d)
  {
    ConcatAssoc(a + b, c, d);
    ConcatAssoc(a, b, c + d);
    ConcatAssoc(b, c, d);
  }

  /** The reversal of a sequence with one more element starts with that element. */
  lemma ReversedSnoc<T>(s: seq<T>, x: T)
    ensures Reversed(s + [x]) == [x] + Reversed(s)
  {
    var r, t := Reversed(s + [x]), [x] + Reversed(s);
    assert |r| == |t|;
    forall k | 0 <= k < |r| ensures r[k] == t[k] {
      if k > 0 {
        assert t[k] == Reversed(s)[k - 1] == s[|s| - k];
        assert (s + [x])[|s| - k] == s[|s| - k];
      }
    }
  }

  /** The two halves of a concatenation are recovered by slicing at the seam. */
  lemma AppendParts<T>(a: seq<T>, b: seq<T>)
    ensures (a + b)[..|a|] == a && (a + b)[|a|..] == b
  {
    var t := a + b;
    assert |t[..|a|]| == |a| && |t[|a|..]| == |b|;
    forall k | 0 <= k < |a| ensures t[..|a|][k] == a[k] { }
    forall k | 0 <= k < |b| ensures t[|a|..][k] == b[k] {
      assert t[|a|..][k] == t[|a| + k];
    }
  }

  /** An element of a prefix is the element of the whole sequence. */
  lemma PrefixElement<T>(s: seq<T>, n: nat, i: nat)
    requires i < n <= |s|
    ensures s[..n][i] == s[i]
  {
  }

  /** A prefix one longer is the prefix and the next element. */
  lemma PrefixSnoc<T>(s: seq<T>, k: nat)
    requires k < |s|
    ensures s[..k] + [s[k]] == s[..k + 1]
  {
    var u, v := s[..k] + [s[k]], s[..k + 1];
    assert |u| == |v|;
    forall n | 0 <= n < |u| ensures u[n] == v[n] { }
  }
}
