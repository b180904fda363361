/**
 The key deriver: the object-store key of a blob is the first twenty
 characters of its SHA-1 digest cut into five groups of four and joined with
 slashes ("0123/4567/89ab/cdef/0123"). The scheme is part of the contract with
 every object already stored.
 */
module StoreKeys {
  import opened Text

  /** storeKey: `h[0:4]/h[4:8]/h[8:12]/h[12:16]/h[16:20]`. Go panics on a shorter text,
      so a caller must pass at least twenty characters. Character `i` of the key is a
      slash when `i` is the fifth of its group, and otherwise the digest character
      that the slashes before it have pushed along. */
  function StoreKey(h: string): (k: string)
    requires |h| >= 20
    ensures |k| == 24
    ensures forall i :: 0 <= i < 24 ==> k[i] == if i % 5 == 4 then '/' else h[i - i / 5]
  {
    h[..4] + "/" + h[4..8] + "/" + h[8..12] + "/" + h[12..16] + "/" + h[16..20]
  }

  /** The key depends on the first twenty characters only, and on all of them:
      two digests share a key exactly when they share that prefix. */
  lemma StoreKeyDeterminedByPrefix(a: string, b: string)
    requires |a| >= 20 && |b| >= 20
    ensures StoreKey(a) == StoreKey(b) <==> a[..20] == b[..20]
  {
    var ka, kb := StoreKey(a), StoreKey(b);
    if ka == kb {
      forall j | 0 <= j < 20 ensures a[j] == b[j] {
        var i := j + j / 4;
        assert i % 5 != 4 && i - i / 5 == j;
        assert ka[i] == kb[i];
      }
      assert a[..20] == b[..20];
    } else {
      var i :| 0 <= i < 24 && ka[i] != kb[i];
      assert i % 5 != 4;
      assert a[i - i / 5] != b[i - i / 5];
      assert a[..20][i - i / 5] != b[..20][i - i / 5];
    }
  }

  /** How many times `c` occurs in `s`. */
  function Occurrences(s: string, c: char): (n: nat)
    ensures n <= |s|
    ensures n == 0 <==> forall i :: 0 <= i < |s| ==> s[i] != c
  {
    if s == [] then 0
    else Occurrences(s[..|s| - 1], c) + (if s[|s| - 1] == c then 1 else 0)
  }

  lemma {:induction false} OccurrencesConcat(a: string, b: string, c: char)
    ensures Occurrences(a + b, c) == Occurrences(a, c) + Occurrences(b, c)
    decreases |b|
  {
    if b != [] {
      assert (a + b)[..|a + b| - 1] == a + b[..|b| - 1];
      OccurrencesConcat(a, b[..|b| - 1], c);
    } else {
      assert a + b == a;
    }
  }

  /** A key made from a prefix without slashes has exactly four of them, so it
      always names an object four directory levels deep. This holds for every
      digest. */
  lemma StoreKeyHasFourSlashes(h: string)
    requires |h| >= 20
    requires forall i :: 0 <= i < 20 ==> h[i] != '/'
    ensures Occurrences(StoreKey(h), '/') == 4
  {
    var s0, s1, s2, s3, s4 := h[..4], h[4..8], h[8..12], h[12..16], h[16..20];
    assert Occurrences(s0, '/') == 0 && Occurrences(s1, '/') == 0;
    assert Occurrences(s2, '/') == 0 && Occurrences(s3, '/') == 0;
    assert Occurrences(s4, '/') == 0;
    assert Occurrences("/", '/') == 1;
    OccurrencesConcat(s0, "/", '/');
    OccurrencesConcat(s0 + "/", s1, '/');
    OccurrencesConcat(s0 + "/" + s1, "/", '/');
    OccurrencesConcat(s0 + "/" + s1 + "/", s2, '/');
    OccurrencesConcat(s0 + "/" + s1 + "/" + s2, "/", '/');
    OccurrencesConcat(s0 + "/" + s1 + "/" + s2 + "/", s3, '/');
    OccurrencesConcat(s0 + "/" + s1 + "/" + s2 + "/" + s3, "/", '/');
    OccurrencesConcat(s0 + "/" + s1 + "/" + s2 + "/" + s3 + "/", s4, '/');
  }

  /** Every digest yields a 24-character key with four slashes. */
  lemma DigestKeyShape(h: string)
    requires IsDigest(h)
    ensures |StoreKey(h)| == 24 && Occurrences(StoreKey(h), '/') == 4
  {
    StoreKeyHasFourSlashes(h);
  }
}
