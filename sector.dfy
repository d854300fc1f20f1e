/**
 * The pure helpers of the reader classes (src/mfrc522/BasicMFRC522.py:360-399,
 * src/mfrc522/SimpleMFRC522.py:182-186): the sector-trailer test, the UID-to-number
 * fold, the 48-character chunking of a long text, and the text-to-block encoding
 * (space padding, ASCII encoding) and block-to-text decoding.
 */
module Sector {
  import opened Wrappers

  /** A MIFARE Classic sector has three data blocks followed by its trailer. */
  const SectorData: nat := 48

  /** The trailer test: (t + 1) % 4 == 0, Python's floored % agreeing with Dafny's for a positive divisor. */
  predicate IsTrailer(t: int)
  {
    (t + 1) % 4 == 0
  }

  /** Trailers are exactly the last block of each group of four: 3, 7, 11, ... */
  lemma TrailerIsLastOfFour(t: int)
    ensures IsTrailer(t) <==> t % 4 == 3
  {
  }

  /** Big-endian value of a byte string: the fold n := n * 256 + b. */
  function BigEndian(s: seq<bv8>): nat
  {
    if s == [] then 0 else BigEndian(s[..|s| - 1]) * 256 + s[|s| - 1] as int
  }

  function Pow256(n: nat): (p: nat)
    ensures p >= 1
  {
    if n == 0 then 1 else 256 * Pow256(n - 1)
  }

  /** An n-byte string has a value below 256^n. */
  lemma {:induction false} BigEndianBound(s: seq<bv8>)
    ensures BigEndian(s) < Pow256(|s|)
  {
    if s != [] {
      var init := s[..|s| - 1];
      BigEndianBound(init);
      assert BigEndian(init) + 1 <= Pow256(|init|);
      assert (BigEndian(init) + 1) * 256 <= Pow256(|init|) * 256;
    }
  }

  /** The fold is injective on strings of one length: distinct UIDs give distinct ids. */
  lemma {:induction false} BigEndianInjective(a: seq<bv8>, b: seq<bv8>)
    requires |a| == |b| && BigEndian(a) == BigEndian(b)
    ensures a == b
  {
    if a != [] {
      var n := |a| - 1;
      var x, y := BigEndian(a[..n]), BigEndian(b[..n]);
      var p, q := a[n] as int, b[n] as int;
      assert 0 <= p < 256 && 0 <= q < 256 && x * 256 + p == y * 256 + q;
      assert x == y && p == q;
      BigEndianInjective(a[..n], b[..n]);
      forall i | 0 <= i < |a|
        ensures a[i] == b[i]
      {
        if i < n {
          assert a[i] == a[..n][i] && b[i] == b[..n][i];
        }
      }
    }
  }

  /** The value is zero exactly when every byte is zero. */
  lemma {:induction false} BigEndianZero(s: seq<bv8>)
    ensures BigEndian(s) == 0 <==> forall i :: 0 <= i < |s| ==> s[i] == 0
  {
    if s != [] {
      var n := |s| - 1;
      BigEndianZero(s[..n]);
      assert forall i :: 0 <= i < n ==> s[..n][i] == s[i];
    }
  }

  /** The tag id: the big-endian value of the first five UID bytes, so below 2^40. */
  function UidValue(uid: seq<bv8>): (n: nat)
    requires |uid| >= 5
    ensures n < 0x100_0000_0000
  {
    BigEndianBound(uid[..5]);
    BigEndian(uid[..5])
  }

  /** A UID whose first five bytes are zero gives id 0, and only such a UID does. */
  lemma UidZeroIff(uid: seq<bv8>)
    requires |uid| >= 5
    ensures UidValue(uid) == 0 <==> forall i :: 0 <= i < 5 ==> uid[i] == 0
  {
    BigEndianZero(uid[..5]);
  }

  /** Two UIDs with the same id agree on their first five bytes. */
  lemma UidValueInjective(a: seq<bv8>, b: seq<bv8>)
    requires |a| >= 5 && |b| >= 5 && UidValue(a) == UidValue(b)
    ensures a[..5] == b[..5]
  {
    BigEndianInjective(a[..5], b[..5]);
  }

  /** _uid_to_num: the accumulator loop over uid[0..5]. */
  method UidToNum(uid: seq<bv8>) returns (n: nat)
    requires |uid| >= 5
    ensures n == UidValue(uid)
  {
    n := 0;
    for i := 0 to 5
      invariant n == BigEndian(uid[..i])
    {
      assert uid[..i + 1][..i] == uid[..i];
      n := n * 256 + uid[i] as int;
    }
  }

  /** Number of 48-character chunks of an n-character text: ceil(n / 48). */
  function ChunkCount(n: nat): (c: nat)
    ensures SectorData * c >= n && SectorData * c < n + SectorData
  {
    (n + 47) / 48
  }

  /** n NUL characters. */
  function Nuls(n: nat): (z: seq<char>)
    ensures |z| == n && forall i :: 0 <= i < n ==> z[i] == '\0'
  {
    seq(n, _ => '\0')
  }

  /** The text padded with NULs to a whole number of chunks, fewer than 48 of them. */
  function Padded(s: seq<char>): (p: seq<char>)
    ensures |p| == SectorData * ChunkCount(|s|) && p[..|s|] == s
    ensures forall i :: |s| <= i < |p| ==> p[i] == '\0'
  {
    s + Nuls(SectorData * ChunkCount(|s|) - |s|)
  }

  /** The chunks _split_string produces: consecutive 48-character windows of the padded text. */
  function Chunks(s: seq<char>): (l: seq<seq<char>>)
    ensures |l| == ChunkCount(|s|)
    ensures forall j :: 0 <= j < |l| ==> |l[j]| == SectorData
  {
    var p := Padded(s);
    seq(ChunkCount(|s|), j requires 0 <= j < ChunkCount(|s|) => p[48 * j .. 48 * j + 48])
  }

  /** Concatenation of a list of sequences, in order (''.join, or += in a loop). */
  function Concat<T>(l: seq<seq<T>>): seq<T>
  {
    if l == [] then [] else Concat(l[..|l| - 1]) + l[|l| - 1]
  }

  /** Appending one more piece appends it to the concatenation. */
  lemma ConcatSnoc<T>(l: seq<seq<T>>, x: seq<T>)
    ensures Concat(l + [x]) == Concat(l) + x
  {
    assert (l + [x])[..|l|] == l;
  }

  /** One more piece of a list's prefix appends that piece to the prefix's concatenation. */
  lemma ConcatPrefixSnoc<T>(l: seq<seq<T>>, i: nat)
    requires i < |l|
    ensures Concat(l[..i + 1]) == Concat(l[..i]) + l[i]
  {
    assert l[..i + 1] == l[..i] + [l[i]];
    ConcatSnoc(l[..i], l[i]);
  }

  /** The first k chunks concatenated are the first 48k characters of the padded text. */
  lemma {:induction false} ChunksPrefix(s: seq<char>, k: nat)
    requires k <= ChunkCount(|s|)
    ensures Concat(Chunks(s)[..k]) == Padded(s)[..SectorData * k]
  {
    if k > 0 {
      var l := Chunks(s);
      ChunksPrefix(s, k - 1);
      assert l[..k][..k - 1] == l[..k - 1];
      var p := Padded(s);
      assert p[..48 * k] == p[..48 * (k - 1)] + p[48 * (k - 1) .. 48 * k];
    }
  }

  /** All chunks together are the text followed by its NUL padding. */
  lemma ChunksConcat(s: seq<char>)
    ensures Concat(Chunks(s)) == s + Nuls(SectorData * ChunkCount(|s|) - |s|)
  {
    var l := Chunks(s);
    ChunksPrefix(s, |l|);
    assert l[..|l|] == l;
  }

  function Min(a: int, b: int): int
  {
    if a < b then a else b
  }

  /** Chunk j of the padded text, in terms of the text: its window, with NULs past the end. */
  lemma ChunkWindow(s: seq<char>, j: nat)
    requires j < ChunkCount(|s|)
    ensures Chunks(s)[j] == s[48 * j .. Min(48 * j + 48, |s|)] + Nuls(48 * j + 48 - Min(48 * j + 48, |s|))
  {
    var p := Padded(s);
    var e := Min(48 * j + 48, |s|);
    assert p[48 * j .. 48 * j + 48] == p[48 * j .. e] + p[e .. 48 * j + 48];
    assert p[48 * j .. e] == s[48 * j .. e];
  }

  /**
   * _split_string: slice the text in steps of 48, then pad the last slice with NULs;
   * an empty text leaves no last slice, and indexing it raises (None here).
   */
  method SplitString(s: seq<char>) returns (l: Option<seq<seq<char>>>)
    ensures s == [] <==> l == None
    ensures s != [] ==> l == Some(Chunks(s))
  {
    var parts: seq<seq<char>> := [];
    var i := 0;
    while i < |s|
      invariant i == 48 * |parts| && i < |s| + 48
      invariant forall j :: 0 <= j < |parts| ==> parts[j] == s[48 * j .. Min(48 * j + 48, |s|)]
      decreases |s| - i
    {
      parts := parts + [s[i .. Min(i + 48, |s|)]];
      i := i + 48;
    }
    if |parts| == 0 {
      return None;
    }
    var last := parts[|parts| - 1];
    if |last| < 48 {
      parts := parts[|parts| - 1 := last + Nuls(48 - |last|)];
    }
    assert |parts| == ChunkCount(|s|);
    forall j | 0 <= j < |parts|
      ensures parts[j] == Chunks(s)[j]
    {
      ChunkWindow(s, j);
    }
    assert parts == Chunks(s);
    l := Some(parts);
  }

  /** str.ljust: pad with spaces on the right up to width; a longer text is kept whole. */
  function LeftJustify(s: seq<char>, width: nat): (r: seq<char>)
    ensures |r| == (if |s| < width then width else |s|)
    ensures r[..|s|] == s && forall i :: |s| <= i < |r| ==> r[i] == ' '
  {
    if |s| < width then s + seq(width - |s|, _ => ' ') else s
  }

  /** Every character encodes as one ASCII byte. */
  predicate IsAscii(s: seq<char>)
  {
    forall i :: 0 <= i < |s| ==> s[i] as int < 128
  }

  /** The byte whose value is n, counted up from 0 (so the solver need not invert the bit-vector cast). */
  function Byte(n: nat): (b: bv8)
    requires n < 256
    ensures b as int == n
  {
    if n == 0 then 0 else Byte(n - 1) + 1
  }

  /** str.encode('ascii') of an ASCII text. */
  function AsciiBytes(s: seq<char>): (b: seq<bv8>)
    requires IsAscii(s)
    ensures |b| == |s| && forall i :: 0 <= i < |s| ==> b[i] as int == s[i] as int
  {
    seq(|s|, i requires 0 <= i < |s| => Byte(s[i] as int))
  }

  /** ''.join(chr(b) for b in data): one character per byte. */
  function Chars(data: seq<bv8>): (s: seq<char>)
    ensures |s| == |data| && forall i :: 0 <= i < |data| ==> s[i] as int == data[i] as int
  {
    seq(|data|, i requires 0 <= i < |data| => data[i] as int as char)
  }

  /**
   * The bytes a write sends for a text: text.ljust(48).encode('ascii'), or None when
   * the encoding raises.
   */
  function WriteBytes(text: seq<char>): (b: Option<seq<bv8>>)
    ensures b.Some? <==> IsAscii(text)
    ensures b.Some? ==> |b.value| >= SectorData
  {
    var padded := LeftJustify(text, SectorData);
    if IsAscii(padded) then Some(AsciiBytes(padded)) else None
  }

  /** The text a write reports: text[0:48]. */
  function Clip(text: seq<char>): (r: seq<char>)
    ensures |r| == Min(|text|, SectorData) && r == text[..|r|]
  {
    if |text| <= SectorData then text else text[..SectorData]
  }

  /**
   * Decoding the 48 bytes a write sends gives back the padded text, whose first
   * characters are the text the write reports.
   */
  lemma WrittenBytesDecode(text: seq<char>)
    requires IsAscii(text)
    ensures var b := WriteBytes(text).value;
      var d := Chars(b[..SectorData]);
      && d == LeftJustify(text, SectorData)[..SectorData]
      && d[..|Clip(text)|] == Clip(text)
  {
    var b := WriteBytes(text).value;
    var d := Chars(b[..SectorData]);
    var padded := LeftJustify(text, SectorData);
    assert forall i :: 0 <= i < SectorData ==> d[i] == padded[i];
  }
}
