/**
 * The stored embedding: each float's 32 raw bits as four little-endian bytes,
 * concatenated in vector order with no header, length prefix or padding,
 * under the storage path embeddings/<uid>/embedding.bin.
 */
module EmbeddingBlob {
  import opened Wrappers
  import opened Binary32

  type Byte = x: int | 0 <= x < 0x100

  // ---------------------------------------------------------------------------
  // One word

  /** The four bytes of a word, least significant first. */
  function WordBytes(w: Bits): (b: seq<Byte>)
    ensures |b| == 4
  {
    [w % 0x100, (w / 0x100) % 0x100, (w / 0x1_0000) % 0x100, w / 0x100_0000]
  }

  /** The word four little-endian bytes spell. */
  function WordOf(b: seq<Byte>): Bits
    requires |b| == 4
  {
    b[0] as int + 0x100 * b[1] as int + 0x1_0000 * b[2] as int + 0x100_0000 * b[3] as int
  }

  lemma WordOfWordBytes(w: Bits)
    ensures WordOf(WordBytes(w)) == w
  {
    var q1, q2, q3 := w / 0x100, w / 0x1_0000, w / 0x100_0000;
    assert q2 == q1 / 0x100 && q3 == q2 / 0x100;
    assert w == q1 * 0x100 + w % 0x100;
    assert q1 == q2 * 0x100 + q1 % 0x100;
    assert q2 == q3 * 0x100 + q2 % 0x100;
    assert WordBytes(w) == [w % 0x100, q1 % 0x100, q2 % 0x100, q3];
  }

  lemma WordBytesWordOf(b: seq<Byte>)
    requires |b| == 4
    ensures WordBytes(WordOf(b)) == b
  {
    var w := WordOf(b);
    var q2 := b[2] as int + 0x100 * b[3] as int;
    var q1 := b[1] as int + 0x100 * q2;
    assert w == b[0] as int + 0x100 * q1;
    assert w / 0x100 == q1 && w % 0x100 == b[0];
    assert w / 0x1_0000 == q1 / 0x100 == q2 && q1 % 0x100 == b[1];
    assert w / 0x100_0000 == q2 / 0x100 == b[3] && q2 % 0x100 == b[2];
  }

  // ---------------------------------------------------------------------------
  // Whole vectors

  /** The blob enrolment writes: the words' bytes one word after another. */
  function Encode(v: seq<Bits>): (s: seq<Byte>)
    ensures |s| == 4 * |v|
  {
    if v == [] then [] else Encode(v[..|v| - 1]) + WordBytes(v[|v| - 1])
  }

  /** The first n words of a blob, read four bytes at a time. */
  function DecodeWords(s: seq<Byte>, n: nat): (v: seq<Bits>)
    requires 4 * n <= |s|
    ensures |v| == n
  {
    if n == 0 then [] else DecodeWords(s, n - 1) + [WordOf(s[4 * (n - 1)..4 * n])]
  }

  /** What verification reads: bytes.size / 4 words; a trailing 1 to 3 bytes are not read. */
  function Decode(s: seq<Byte>): (v: seq<Bits>)
    ensures |v| == |s| / 4
  {
    DecodeWords(s, |s| / 4)
  }

  /** Word i occupies bytes 4i..4i+3, least significant byte first. */
  lemma {:induction false} EncodeAt(v: seq<Bits>, i: int, j: int)
    requires 0 <= i < |v| && 0 <= j < 4
    ensures Encode(v)[4 * i + j] == WordBytes(v[i])[j]
  {
    var n := |v|;
    if i < n - 1 {
      EncodeAt(v[..n - 1], i, j);
    }
  }

  /** Word i of the decoding is read from bytes 4i..4i+3. */
  lemma {:induction false} DecodeWordsAt(s: seq<Byte>, n: nat, i: int)
    requires 4 * n <= |s| && 0 <= i < n
    ensures DecodeWords(s, n)[i] == WordOf(s[4 * i..4 * i + 4])
  {
    if i < n - 1 {
      DecodeWordsAt(s, n - 1, i);
    }
  }

  /** Decoding the encoding gives back every 32-bit pattern. */
  lemma DecodeEncode(v: seq<Bits>)
    ensures Decode(Encode(v)) == v
  {
    var s := Encode(v);
    forall i | 0 <= i < |v| ensures Decode(s)[i] == v[i] {
      DecodeWordsAt(s, |v|, i);
      forall j | 0 <= j < 4 ensures s[4 * i..4 * i + 4][j] == WordBytes(v[i])[j] {
        EncodeAt(v, i, j);
      }
      assert s[4 * i..4 * i + 4] == WordBytes(v[i]);
      WordOfWordBytes(v[i]);
    }
  }

  /** Encoding the decoding gives back the blob up to its last whole word. */
  lemma EncodeDecode(s: seq<Byte>)
    ensures Encode(Decode(s)) == s[..4 * (|s| / 4)]
  {
    var v := Decode(s);
    var e := Encode(v);
    forall k | 0 <= k < |e| ensures e[k] == s[k] {
      var i, j := k / 4, k % 4;
      EncodeAt(v, i, j);
      DecodeWordsAt(s, |s| / 4, i);
      WordBytesWordOf(s[4 * i..4 * i + 4]);
    }
  }

  /** Bytes after the last whole word do not change the decoding. */
  lemma DecodeIgnoresTrailing(s: seq<Byte>, t: seq<Byte>)
    requires |s| % 4 == 0 && |t| < 4
    ensures Decode(s + t) == Decode(s)
  {
    forall i | 0 <= i < |s| / 4 ensures Decode(s + t)[i] == Decode(s)[i] {
      DecodeWordsAt(s + t, |s| / 4, i);
      DecodeWordsAt(s, |s| / 4, i);
      assert (s + t)[4 * i..4 * i + 4] == s[4 * i..4 * i + 4];
    }
  }

  /** No header or separator: the encoding of a concatenation is the concatenation of the encodings. */
  lemma {:induction false} EncodeConcat(u: seq<Bits>, v: seq<Bits>)
    ensures Encode(u + v) == Encode(u) + Encode(v)
    decreases |v|
  {
    if v != [] {
      var n := |v|;
      assert (u + v)[..|u + v| - 1] == u + v[..n - 1];
      EncodeConcat(u, v[..n - 1]);
    } else {
      assert u + v == u;
    }
  }

  // ---------------------------------------------------------------------------
  // The byte buffer with a cursor

  /**
   * A little-endian java.nio.ByteBuffer over a byte array: putFloat and
   * getFloat move the position four bytes at a time.
   */
  class ByteBuffer {
    var data: array<Byte>
    var position: nat

    ghost predicate Valid()
      reads this
    {
      position <= data.Length
    }

    /** ByteBuffer.allocate(capacity): zero-filled, position 0. */
    constructor Allocate(capacity: nat)
      ensures Valid() && fresh(data)
      ensures data.Length == capacity && position == 0
      ensures data[..] == seq(capacity, _ => 0)
    {
      data := new Byte[capacity](_ => 0);
      position := 0;
    }

    /** ByteBuffer.wrap(bytes): reads the array itself, from position 0. */
    constructor Wrap(bytes: array<Byte>)
      ensures Valid() && data == bytes && position == 0
    {
      data := bytes;
      position := 0;
    }

    /** putFloat: the word's bytes at the position, least significant first; overflow when fewer than four remain. */
    method PutFloat(w: Bits) returns (ok: bool)
      requires Valid()
      modifies this`position, data
      ensures Valid() && data == old(data)
      ensures ok == (old(position) + 4 <= data.Length)
      ensures ok ==> (position == old(position) + 4 &&
                      data[..] == old(data[..position]) + WordBytes(w) + old(data[position + 4..]))
      ensures !ok ==> position == old(position) && data[..] == old(data[..])
    {
      ok := position + 4 <= data.Length;
      if ok {
        var b := WordBytes(w);
        data[position] := b[0];
        data[position + 1] := b[1];
        data[position + 2] := b[2];
        data[position + 3] := b[3];
        position := position + 4;
      }
    }

    /** getFloat: the word in the four bytes at the position; underflow when fewer than four remain. */
    method GetFloat() returns (r: Option<Bits>)
      requires Valid()
      modifies this`position
      ensures Valid()
      ensures r.Some? == (old(position) + 4 <= data.Length)
      ensures r.Some? ==> position == old(position) + 4 && r.value == WordOf(data[old(position)..position])
      ensures r.None? ==> position == old(position)
    {
      if position + 4 <= data.Length {
        r := Some(WordOf(data[position..position + 4]));
        position := position + 4;
      } else {
        r := None;
      }
    }
  }

  /** Enrolment's packing: allocate 4 * size bytes, putFloat every element in order, take the array. */
  method Pack(emb: array<Bits>) returns (bytes: array<Byte>)
    ensures bytes[..] == Encode(emb[..])
  {
    var bb := new ByteBuffer.Allocate(emb.Length * 4);
    for i := 0 to emb.Length
      invariant bb.Valid() && fresh(bb) && fresh(bb.data)
      invariant bb.data.Length == 4 * emb.Length && bb.position == 4 * i
      invariant bb.data[..4 * i] == Encode(emb[..i])
    {
      ghost var before := bb.data[..4 * i];
      var ok := bb.PutFloat(emb[i]);
      assert ok;
      assert bb.data[..4 * (i + 1)] == before + WordBytes(emb[i]);
      assert emb[..i + 1][..i] == emb[..i];
    }
    assert emb[..emb.Length] == emb[..];
    assert bb.data[..4 * emb.Length] == bb.data[..];
    bytes := bb.data;
  }

  /** Verification's unpacking: a FloatArray of bytes.size / 4 elements, each from one getFloat. */
  method Unpack(bytes: array<Byte>) returns (stored: array<Bits>)
    ensures stored.Length == bytes.Length / 4
    ensures stored[..] == Decode(bytes[..])
  {
    var bb := new ByteBuffer.Wrap(bytes);
    stored := new Bits[bytes.Length / 4];
    for i := 0 to stored.Length
      invariant bb.Valid() && fresh(bb) && bb.data == bytes && bb.position == 4 * i
      invariant stored[..i] == DecodeWords(bytes[..], i)
    {
      var w := bb.GetFloat();
      assert bytes[4 * i..4 * i + 4] == bytes[..][4 * i..4 * (i + 1)];
      stored[i] := w.value;
      assert stored[..i + 1] == stored[..i] + [w.value];
    }
    assert stored[..stored.Length] == stored[..];
  }

  // ---------------------------------------------------------------------------
  // Where the blob lives

  const PathPrefix: string := "embeddings/"
  const PathSuffix: string := "/embedding.bin"

  /** The storage path of a user's blob; enrolment writes it and verification reads it. */
  function StorageKey(uid: string): (key: string)
    ensures |key| == |PathPrefix| + |uid| + |PathSuffix|
    ensures key[..|PathPrefix|] == PathPrefix
    ensures key[|PathPrefix|..|PathPrefix| + |uid|] == uid
    ensures key[|PathPrefix| + |uid|..] == PathSuffix
  {
    PathPrefix + uid + PathSuffix
  }

  /** Distinct users never share a storage path. */
  lemma StorageKeyInjective(u: string, u': string)
    ensures StorageKey(u) == StorageKey(u') <==> u == u'
  {
    if StorageKey(u) == StorageKey(u') {
      var k := StorageKey(u);
      assert |u| == |u'|;
      assert u == k[|PathPrefix|..|PathPrefix| + |u|] == u';
    }
  }

  /** The storage bucket: blobs by path. */
  type Store = map<string, seq<Byte>>
}
