/** recipedb/store.go, `versionKey` and `versionFromKey`: versions as 8-byte big-endian keys. */
module VersionKeys {
  import opened Values
  import opened Text

  const TWO_TO_63 := 0x8000_0000_0000_0000
  const TWO_TO_64 := 0x1_0000_0000_0000_0000

  function ToUint64(v: Int64): nat {
    if v < 0 then v + TWO_TO_64 else v
  }

  /** Go's conversion from uint64 to int: values from 2^63 on wrap to negative ones. */
  function ToInt64(u: nat): Int64
    requires u < TWO_TO_64
  {
    if u < TWO_TO_63 then u else u - TWO_TO_64
  }

  function BigEndian(u: nat, width: nat): string {
    if width == 0 then "" else BigEndian(u / 256, width - 1) + [(u % 256) as char]
  }

  function FromBigEndian(bytes: string): nat {
    if bytes == "" then 0 else FromBigEndian(bytes[..|bytes| - 1]) * 256 + bytes[|bytes| - 1] as int
  }

  function VersionKey(v: Int64): string {
    BigEndian(ToUint64(v), 8)
  }

  predicate IsKey(k: string) {
    |k| == 8 && FromBigEndian(k) < TWO_TO_64
  }

  function VersionFromKey(k: string): Int64
    requires IsKey(k)
  {
    ToInt64(FromBigEndian(k))
  }

  /** `v + 1` in Go's int arithmetic. */
  function Successor(v: Int64): Int64 {
    if v == TWO_TO_63 - 1 then -TWO_TO_63 else v + 1
  }

  function Pow256(n: nat): nat {
    if n == 0 then 1 else 256 * Pow256(n - 1)
  }

  lemma {:induction false} BigEndianBack(u: nat, width: nat)
    requires u < Pow256(width)
    ensures |BigEndian(u, width)| == width && FromBigEndian(BigEndian(u, width)) == u
  {
    if width > 0 {
      BigEndianBack(u / 256, width - 1);
      var s := BigEndian(u, width);
      assert s[..|s| - 1] == BigEndian(u / 256, width - 1);
    }
  }

  lemma {:induction false} BeforeByLastByte(a: string, b: string, c: char, d: char)
    requires |a| == |b|
    ensures Before(a + [c], b + [d]) <==> Before(a, b) || (a == b && c < d)
  {
    if a != "" {
      assert (a + [c])[1..] == a[1..] + [c] && (b + [d])[1..] == b[1..] + [d];
      BeforeByLastByte(a[1..], b[1..], c, d);
      assert a == [a[0]] + a[1..] && b == [b[0]] + b[1..];
    }
  }

  lemma BigEndianInjective(x: nat, y: nat, width: nat)
    requires x < Pow256(width) && y < Pow256(width)
    ensures BigEndian(x, width) == BigEndian(y, width) <==> x == y
  {
    BigEndianBack(x, width);
    BigEndianBack(y, width);
  }

  /** Byte order of equally long big-endian encodings is numeric order. */
  lemma {:induction false} BigEndianEmbedsOrder(x: nat, y: nat, width: nat)
    requires x < Pow256(width) && y < Pow256(width)
    ensures x < y <==> Before(BigEndian(x, width), BigEndian(y, width))
  {
    if width > 0 {
      BigEndianEmbedsOrder(x / 256, y / 256, width - 1);
      BigEndianBack(x / 256, width - 1);
      BigEndianBack(y / 256, width - 1);
      var c, d := (x % 256) as char, (y % 256) as char;
      BeforeByLastByte(BigEndian(x / 256, width - 1), BigEndian(y / 256, width - 1), c, d);
      BigEndianInjective(x / 256, y / 256, width - 1);
      assert x < y <==> x / 256 < y / 256 || (x / 256 == y / 256 && x % 256 < y % 256);
    }
  }

  lemma Pow256Of8()
    ensures Pow256(8) == TWO_TO_64
  {
    assert Pow256(4) == 0x1_0000_0000;
  }

  /** Decoding inverts encoding for every Go int, negative ones included. */
  lemma VersionKeyBack(v: Int64)
    ensures IsKey(VersionKey(v)) && VersionFromKey(VersionKey(v)) == v
  {
    Pow256Of8();
    BigEndianBack(ToUint64(v), 8);
  }

  /** Among versions of one sign the keys sort as the versions do; any negative one sorts after all others. */
  lemma VersionKeysEmbedOrder(v: Int64, w: Int64)
    ensures Before(VersionKey(v), VersionKey(w)) <==> if (v < 0) == (w < 0) then v < w else w < 0
  {
    Pow256Of8();
    BigEndianEmbedsOrder(ToUint64(v), ToUint64(w), 8);
  }

  /** The keys of versions 1..n. */
  function KeysTo(n: nat): (ks: seq<string>)
    requires n < TWO_TO_63
    ensures |ks| == n
  {
    if n == 0 then [] else KeysTo(n - 1) + [VersionKey(n)]
  }

  lemma {:induction false} KeyAt(n: nat, i: nat)
    requires i < n < TWO_TO_63
    ensures KeysTo(n)[i] == VersionKey(i + 1)
    ensures IsKey(KeysTo(n)[i]) && VersionFromKey(KeysTo(n)[i]) == i + 1
  {
    if i < n - 1 {
      KeyAt(n - 1, i);
    } else {
      VersionKeyBack(n);
    }
  }

  lemma {:induction false} KeysAscend(n: nat)
    requires n < TWO_TO_63
    ensures Ascending(KeysTo(n))
  {
    hide VersionKey, VersionFromKey, Before;
    forall i, j | 0 <= i < j < n ensures Before(KeysTo(n)[i], KeysTo(n)[j]) {
      KeyAt(n, i);
      KeyAt(n, j);
      VersionKeysEmbedOrder(i + 1, j + 1);
    }
  }

  /** A version's key is among those of 1..n exactly when the version is. */
  lemma KeyAmong(n: nat, v: Int64)
    requires n < TWO_TO_63
    ensures VersionKey(v) in KeysTo(n) <==> 1 <= v <= n
  {
    var key := VersionKey(v);
    if key in KeysTo(n) {
      var i :| 0 <= i < n && KeysTo(n)[i] == key;
      KeyAt(n, i);
      VersionKeyBack(v);
    }
    if 1 <= v <= n {
      KeyAt(n, v - 1);
    }
  }
}
