/** Embedding vectors as blobs: each float's 32-bit pattern in little-endian order. */
module VectorBlob {
  import opened Options
  import opened Bytes

  /** The four bytes of a word, lowest first. */
  function WordBytes(w: word): (b: seq<byte>)
    ensures |b| == 4
  {
    var n := w as int;
    [(n % 0x100) as byte, (n / 0x100 % 0x100) as byte, (n / 0x1_0000 % 0x100) as byte, (n / 0x100_0000) as byte]
  }

  function WordOf(b0: byte, b1: byte, b2: byte, b3: byte): word {
    (b0 as int + b1 as int * 0x100 + b2 as int * 0x1_0000 + b3 as int * 0x100_0000) as word
  }

  function Encoded(vec: seq<word>): (blob: seq<byte>)
    ensures |blob| == 4 * |vec|
  {
    if vec == [] then [] else Encoded(vec[..|vec| - 1]) + WordBytes(vec[|vec| - 1])
  }

  function Decoded(blob: seq<byte>): Option<seq<word>> {
    if |blob| % 4 != 0 then None else Some(Words(blob))
  }

  function Words(blob: seq<byte>): (vec: seq<word>)
    requires |blob| % 4 == 0
    ensures |vec| == |blob| / 4
  {
    if blob == [] then []
    else
      var n := |blob|;
      Words(blob[..n - 4]) + [WordOf(blob[n - 4], blob[n - 3], blob[n - 2], blob[n - 1])]
  }

  method Float32SliceToBytes(vec: seq<word>) returns (buf: array<byte>)
    ensures buf[..] == Encoded(vec)
  {
    buf := new byte[|vec| * 4];
    for i := 0 to |vec|
      invariant buf[..i * 4] == Encoded(vec[..i])
    {
      ghost var done := buf[..i * 4];
      var n := vec[i] as int;
      buf[i * 4] := (n % 0x100) as byte;
      buf[i * 4 + 1] := (n / 0x100 % 0x100) as byte;
      buf[i * 4 + 2] := (n / 0x1_0000 % 0x100) as byte;
      buf[i * 4 + 3] := (n / 0x100_0000) as byte;
      assert buf[..(i + 1) * 4] == done + WordBytes(vec[i]);
      assert vec[..i + 1][..i] == vec[..i];
    }
    assert vec[..|vec|] == vec && buf[..] == buf[..|vec| * 4];
  }

  method BytesToFloat32Slice(buf: array<byte>) returns (r: Option<seq<word>>)
    ensures r == Decoded(buf[..])
  {
    if buf.Length % 4 != 0 { return None; }
    var vec := new word[buf.Length / 4];
    for i := 0 to vec.Length
      invariant vec[..i] == Words(buf[..i * 4])
    {
      vec[i] := WordOf(buf[i * 4], buf[i * 4 + 1], buf[i * 4 + 2], buf[i * 4 + 3]);
      var part := buf[..(i + 1) * 4];
      assert part[..|part| - 4] == buf[..i * 4];
      assert vec[..i + 1] == vec[..i] + [vec[i]];
    }
    assert buf[..vec.Length * 4] == buf[..] && vec[..vec.Length] == vec[..];
    return Some(vec[..]);
  }

  /** The blob, byte by byte: four bytes for each word, the lowest first. */
  lemma {:induction false} EncodedAt(vec: seq<word>, i: nat)
    requires i < |vec|
    ensures var b, n := Encoded(vec), vec[i] as int;
      && b[4 * i] as int == n % 0x100 && b[4 * i + 1] as int == n / 0x100 % 0x100
      && b[4 * i + 2] as int == n / 0x1_0000 % 0x100 && b[4 * i + 3] as int == n / 0x100_0000
    decreases |vec|
  {
    var front, last := vec[..|vec| - 1], vec[|vec| - 1];
    assert Encoded(vec) == Encoded(front) + WordBytes(last);
    if i == |front| {
    } else {
      EncodedAt(front, i);
    }
  }

  /** The words of a blob, each from its own four bytes. */
  lemma {:induction false} WordsAt(blob: seq<byte>, i: nat)
    requires |blob| % 4 == 0 && 4 * i < |blob|
    ensures Words(blob)[i] as int
         == blob[4 * i] as int + 0x100 * blob[4 * i + 1] as int
            + 0x1_0000 * blob[4 * i + 2] as int + 0x100_0000 * blob[4 * i + 3] as int
    decreases |blob|
  {
    var front := blob[..|blob| - 4];
    if 4 * i == |front| {
    } else {
      WordsAt(front, i);
    }
  }

  lemma WordRoundTrip(w: word)
    ensures var b := WordBytes(w); WordOf(b[0], b[1], b[2], b[3]) == w
  {
    var n := w as int;
    var n1, n2 := n / 0x100, n / 0x100 / 0x100;
    assert n == n % 0x100 + 0x100 * n1 && n1 == n1 % 0x100 + 0x100 * n2;
    assert n / 0x1_0000 == n2;
    assert n2 == n2 % 0x100 + 0x100 * (n2 / 0x100);
    assert n / 0x100_0000 == n2 / 0x100;
  }

  lemma BytesRoundTrip(b0: byte, b1: byte, b2: byte, b3: byte)
    ensures WordBytes(WordOf(b0, b1, b2, b3)) == [b0, b1, b2, b3]
  {
    var n := WordOf(b0, b1, b2, b3) as int;
    var n1 := b1 as int + b2 as int * 0x100 + b3 as int * 0x1_0000;
    assert n == b0 as int + 0x100 * n1;
    assert n / 0x100 == n1;
    assert n / 0x1_0000 == b2 as int + b3 as int * 0x100;
  }

  /** Decoding an encoded vector returns it. */
  lemma {:induction false} DecodeOfEncode(vec: seq<word>)
    ensures Decoded(Encoded(vec)) == Some(vec)
  {
    hide WordOf, WordBytes;
    if vec == [] {
    } else {
      var front, last := vec[..|vec| - 1], vec[|vec| - 1];
      DecodeOfEncode(front);
      WordRoundTrip(last);
      var blob := Encoded(vec);
      assert blob[..|blob| - 4] == Encoded(front);
      var n, b := |blob|, WordBytes(last);
      assert blob[n - 4] == b[0] && blob[n - 3] == b[1] && blob[n - 2] == b[2] && blob[n - 1] == b[3];
      assert Words(blob) == front + [last];
      assert vec == front + [last];
    }
  }

  /** Encoding what a blob decodes to returns the blob; a blob decodes exactly when its length is a multiple of 4. */
  lemma {:induction false} EncodeOfDecode(blob: seq<byte>)
    ensures Decoded(blob).Some? <==> |blob| % 4 == 0
    ensures Decoded(blob).Some? ==> Encoded(Decoded(blob).value) == blob
    decreases |blob|
  {
    hide WordOf, WordBytes;
    if blob == [] || |blob| % 4 != 0 {
    } else {
      var n := |blob|;
      var front := blob[..n - 4];
      EncodeOfDecode(front);
      BytesRoundTrip(blob[n - 4], blob[n - 3], blob[n - 2], blob[n - 1]);
      var vec := Words(blob);
      assert vec[..|vec| - 1] == Words(front);
      assert blob == front + [blob[n - 4], blob[n - 3], blob[n - 2], blob[n - 1]];
    }
  }
}
