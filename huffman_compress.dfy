/** The encoding half of `huffman_compress` in app.py: frequency table, bit
    string, padding, packing into bytes and the reported metrics. */
module HuffmanCompress {
  import opened Common
  import opened HuffmanTree

  // ---------------------------------------------------------------------------
  // Frequency table

  /** `Counter(flattened)`: each byte value that occurs, with its count. */
  function Count(data: seq<Byte>): (f: Frequencies)
    ensures f == map[] <==> data == []
    ensures forall b | b in f :: f[b] >= 1
  {
    if data == [] then map[]
    else
      var f := Count(data[..|data| - 1]);
      var b := data[|data| - 1];
      f[b := CountOf(f, b) + 1]
  }

  /** The table holds exactly the byte values that occur, each with the
      number of its occurrences. */
  lemma {:induction false} CountIsMultiset(data: seq<Byte>)
    ensures forall b :: b in Count(data) <==> b in data
    ensures forall b | b in Count(data) :: Count(data)[b] == multiset(data)[b]
  {
    if data != [] {
      var init, b := data[..|data| - 1], data[|data| - 1];
      assert data == init + [b];
      CountIsMultiset(init);
    }
  }

  /** The counts add up to the length of the data, so the Huffman root's
      frequency is the number of input bytes. */
  lemma {:induction false} TotalOfCount(data: seq<Byte>)
    ensures Total(Count(data)) == |data|
  {
    if data == [] {
      SumEmpty(ByFrequency, 0);
    } else {
      var init, b := data[..|data| - 1], data[|data| - 1];
      TotalOfCount(init);
      var f := Count(init);
      var n := CountOf(f, b);
      TotalUpdate(f, b, n + 1);
    }
  }

  // ---------------------------------------------------------------------------
  // Bit string

  /** Every byte of the data has a code. */
  predicate Covers(codes: map<Byte, string>, data: seq<Byte>) {
    forall i | 0 <= i < |data| :: data[i] in codes
  }

  /** `''.join([codes[byte] for byte in flattened])` */
  function EncodeBits(codes: map<Byte, string>, data: seq<Byte>): string
    requires Covers(codes, data)
  {
    if data == [] then "" else EncodeBits(codes, data[..|data| - 1]) + codes[data[|data| - 1]]
  }

  /** The sum over the symbols of frequency times code length. */
  function Cost(codes: map<Byte, string>, f: Frequencies): nat {
    SumFrom(f, ByCodeLength(codes), 0)
  }

  /** Counting one more occurrence of `k` adds that symbol's code length
      to the cost. */
  lemma CostIncrement(codes: map<Byte, string>, f: Frequencies, k: Byte)
    ensures Cost(codes, f[k := CountOf(f, k) + 1]) == Cost(codes, f) + CodeLength(codes, k)
  {
    SumUpdate(f, ByCodeLength(codes), k, CountOf(f, k) + 1);
  }

  /** The bit string is as long as the sum over symbols of frequency times
      code length. */
  lemma {:induction false} EncodedLength(codes: map<Byte, string>, data: seq<Byte>)
    requires Covers(codes, data)
    ensures |EncodeBits(codes, data)| == Cost(codes, Count(data))
  {
    if data == [] {
      SumEmpty(ByCodeLength(codes), 0);
    } else {
      var init, b := data[..|data| - 1], data[|data| - 1];
      assert Covers(codes, init);
      EncodedLength(codes, init);
      CostIncrement(codes, Count(init), b);
    }
  }

  /** The bit string is the codes of the bytes one after the other. */
  lemma {:induction false} EncodeBitsConcat(codes: map<Byte, string>, a: seq<Byte>, b: seq<Byte>)
    requires Covers(codes, a) && Covers(codes, b)
    ensures Covers(codes, a + b)
    ensures EncodeBits(codes, a + b) == EncodeBits(codes, a) + EncodeBits(codes, b)
  {
    assert Covers(codes, a + b) by {
      forall i | 0 <= i < |a + b| ensures (a + b)[i] in codes {
        if i < |a| {
          assert (a + b)[i] == a[i];
        } else {
          assert (a + b)[i] == b[i - |a|];
        }
      }
    }
    if b == [] {
      assert a + b == a;
    } else {
      var init, last := b[..|b| - 1], b[|b| - 1];
      assert Covers(codes, init) by {
        forall i | 0 <= i < |init| ensures init[i] in codes {
          assert init[i] == b[i];
        }
      }
      EncodeBitsConcat(codes, a, init);
      assert (a + b)[..|a + b| - 1] == a + init;
      assert (a + b)[|a + b| - 1] == last;
    }
  }

  lemma {:induction false} EncodeBitsAreBits(codes: map<Byte, string>, data: seq<Byte>)
    requires Covers(codes, data)
    requires forall v | v in codes :: IsBits(codes[v])
    ensures IsBits(EncodeBits(codes, data))
  {
    if data != [] {
      EncodeBitsAreBits(codes, data[..|data| - 1]);
    }
  }

  // ---------------------------------------------------------------------------
  // Padding

  function Zeros(n: nat): (z: string)
    ensures |z| == n && forall i | 0 <= i < n :: z[i] == '0'
  {
    if n == 0 then "" else Zeros(n - 1) + "0"
  }

  /** `padding = 8 - (len(encoded_bits) % 8)`: between 1 and 8, a full 8 when
      the length is already a multiple of 8, and it makes the length a
      multiple of 8. */
  function PaddingLength(n: nat): (p: nat)
    ensures 1 <= p <= 8
    ensures (n + p) % 8 == 0
    ensures p == 8 <==> n % 8 == 0
  {
    8 - n % 8
  }

  /** `encoded_bits += '0' * padding`: the bits followed by 1 to 8 zeros,
      up to the next multiple of 8 (a whole byte of zeros when aligned). */
  function PadBits(bits: string): (padded: string)
    ensures |padded| % 8 == 0 && |bits| < |padded| <= |bits| + 8
    ensures padded[..|bits|] == bits
    ensures forall i | |bits| <= i < |padded| :: padded[i] == '0'
  {
    bits + Zeros(PaddingLength(|bits|))
  }

  /** The padded string is a positive multiple of 8 long and gives one byte
      more than the whole bytes of the unpadded string. */
  lemma PaddedLength(bits: string)
    ensures |PadBits(bits)| % 8 == 0 && |PadBits(bits)| >= 8
    ensures |PadBits(bits)| / 8 == |bits| / 8 + 1
    ensures PadBits(bits)[..|bits|] == bits
    ensures IsBits(bits) ==> IsBits(PadBits(bits))
  {
    var p := PaddingLength(|bits|);
    assert |bits| == 8 * (|bits| / 8) + |bits| % 8;
    assert |bits| + p == 8 * (|bits| / 8 + 1);
  }

  // ---------------------------------------------------------------------------
  // Packing

  function Pow2(n: nat): (r: nat)
    ensures r >= 1
  {
    if n == 0 then 1 else 2 * Pow2(n - 1)
  }

  /** `int(s, 2)`: the big-endian value of a string of bits (only strings of
      bits are ever passed). */
  function BitsValue(s: string): (r: nat)
    ensures r < Pow2(|s|)
  {
    if s == [] then 0
    else 2 * BitsValue(s[..|s| - 1]) + (if s[|s| - 1] == '1' then 1 else 0)
  }

  /** The low `n` bits of `v`, most significant first. */
  function BitsOf(v: nat, n: nat): (s: string)
    ensures |s| == n
  {
    if n == 0 then "" else BitsOf(v / 2, n - 1) + [if v % 2 == 1 then '1' else '0']
  }

  /** One byte as its 8 bits, most significant first. */
  function ByteBits(b: Byte): string {
    BitsOf(b, 8)
  }

  /** The bit string that a byte sequence spells, byte by byte. */
  function UnpackBits(bytes: seq<Byte>): (s: string)
    ensures |s| == 8 * |bytes|
  {
    if bytes == [] then "" else UnpackBits(bytes[..|bytes| - 1]) + ByteBits(bytes[|bytes| - 1])
  }

  /** The bits of a bit string's value are that bit string. */
  lemma {:induction false} BitsOfValue(s: string)
    requires IsBits(s)
    ensures BitsOf(BitsValue(s), |s|) == s
  {
    if s != [] {
      var init := s[..|s| - 1];
      BitsOfValue(init);
      var v := BitsValue(s);
      assert v / 2 == BitsValue(init);
      assert s == init + [s[|s| - 1]];
    }
  }

  /** The value of the bits of a number below 2^n is that number. */
  lemma {:induction false} ValueOfBits(v: nat, n: nat)
    requires v < Pow2(n)
    ensures BitsValue(BitsOf(v, n)) == v
  {
    if n > 0 {
      ValueOfBits(v / 2, n - 1);
      var s := BitsOf(v, n);
      assert s[..|s| - 1] == BitsOf(v / 2, n - 1);
    }
  }

  /** Unpacking a byte and packing it again gives the byte back. */
  lemma ByteRoundTrip(b: Byte)
    ensures BitsValue(ByteBits(b)) == b
  {
    assert Pow2(8) == 256;
    ValueOfBits(b, 8);
  }

  /** Chunk `k` of a bit string: `bits[8k:8k+8]`, shorter at the end. */
  function Chunk(bits: string, k: nat): string
    requires 8 * k < |bits|
  {
    bits[8 * k .. Min(8 * k + 8, |bits|)]
  }

  /** A slice of at most 8 characters has a value that fits in a byte. */
  lemma ChunkFits(bits: string, i: nat, j: nat)
    requires i <= j <= |bits| && j - i <= 8
    ensures BitsValue(bits[i..j]) < 256
  {
    Pow2Monotone(j - i, 8);
  }

  /** Appending the value of the next full 8-bit chunk extends the unpacked
      bits by that chunk. */
  lemma UnpackStep(bits: string, bytes: seq<Byte>, i: nat, value: Byte)
    requires IsBits(bits) && i + 8 <= |bits| && UnpackBits(bytes) == bits[..i]
    requires value == BitsValue(bits[i..i + 8])
    ensures UnpackBits(bytes + [value]) == bits[..i + 8]
  {
    var chunk := bits[i..i + 8];
    assert IsBits(chunk) by {
      forall k | 0 <= k < |chunk| ensures chunk[k] == '0' || chunk[k] == '1' {
        assert chunk[k] == bits[i + k];
      }
    }
    BitsOfValue(chunk);
    var next := bytes + [value];
    assert next[..|next| - 1] == bytes;
    assert UnpackBits(next) == UnpackBits(bytes) + ByteBits(value);
    assert bits[..i + 8] == bits[..i] + chunk;
  }

  /** Byte `k` is the value of chunk `k` of the bits, for every byte. */
  predicate PackedChunks(bits: string, bytes: seq<Byte>) {
    forall k | 0 <= k < |bytes| :: 8 * k < |bits| && bytes[k] == BitsValue(Chunk(bits, k))
  }

  lemma PackStep(bits: string, bytes: seq<Byte>, value: Byte)
    requires PackedChunks(bits, bytes) && 8 * |bytes| < |bits|
    requires value == BitsValue(bits[8 * |bytes| .. Min(8 * |bytes| + 8, |bits|)])
    ensures PackedChunks(bits, bytes + [value])
  {
  }

  /** The packing loop: `for i in range(0, len(encoded_bits), 8)` appends
      `int(encoded_bits[i:i+8], 2)`, a last chunk being shorter when the
      length is not a multiple of 8. */
  method PackBits(bits: string) returns (bytes: seq<Byte>)
    requires IsBits(bits)
    ensures |bytes| == (|bits| + 7) / 8
    ensures PackedChunks(bits, bytes)
    ensures |bits| % 8 == 0 ==> UnpackBits(bytes) == bits
  {
    bytes := [];
    var i := 0;
    while i < |bits|
      invariant i == 8 * |bytes| && i < |bits| + 8
      invariant PackedChunks(bits, bytes)
      invariant i <= |bits| ==> UnpackBits(bytes) == bits[..i]
      decreases |bits| - i
    {
      var chunk := bits[i .. Min(i + 8, |bits|)];
      ChunkFits(bits, i, Min(i + 8, |bits|));
      var value: Byte := BitsValue(chunk);
      if i + 8 <= |bits| {
        UnpackStep(bits, bytes, i, value);
      }
      PackStep(bits, bytes, value);
      bytes := bytes + [value];
      i := i + 8;
    }
    ChunkCount(|bits|, |bytes|);
  }

  /** The number of 8-bit chunks, the last one possibly short, of `n` bits. */
  lemma ChunkCount(n: nat, q: nat)
    requires n <= 8 * q < n + 8
    ensures q == (n + 7) / 8
    ensures n % 8 == 0 ==> n == 8 * q
  {
  }

  lemma {:induction false} Pow2Monotone(m: nat, n: nat)
    requires m <= n
    ensures Pow2(m) <= Pow2(n)
  {
    if m < n {
      Pow2Monotone(m, n - 1);
    }
  }

  /** Bytes that hold the big-endian value of each 8-bit chunk of a bit
      string unpack to that bit string. */
  lemma UnpackPacked(bits: string, bytes: seq<Byte>)
    requires IsBits(bits) && |bits| == 8 * |bytes|
    requires PackedChunks(bits, bytes)
    ensures UnpackBits(bytes) == bits
  {
    UnpackPackedPrefix(bits, bytes, |bytes|);
    assert bytes[..|bytes|] == bytes;
  }

  lemma {:induction false} UnpackPackedPrefix(bits: string, bytes: seq<Byte>, n: nat)
    requires IsBits(bits) && |bits| == 8 * |bytes|
    requires PackedChunks(bits, bytes)
    requires n <= |bytes|
    ensures UnpackBits(bytes[..n]) == bits[..8 * n]
  {
    if n > 0 {
      UnpackPackedPrefix(bits, bytes, n - 1);
      var m := 8 * (n - 1);
      assert Chunk(bits, n - 1) == bits[m..m + 8];
      UnpackStep(bits, bytes[..n - 1], m, bytes[n - 1]);
      assert bytes[..n][..n - 1] == bytes[..n - 1];
    }
  }

  // ---------------------------------------------------------------------------
  // The Huffman path of the pipeline

  /** The code table of a tree built from the counts of `data` is
      prefix-free, consists of bit strings, has a code for every byte of
      `data`, and encodes `data` in `Cost` bits. */
  lemma CodeTableFacts(data: seq<Byte>, tree: Node)
    requires LeavesAreKeys(tree, Count(data))
    ensures PrefixFree(Codes(tree, ""))
    ensures Covers(Codes(tree, ""), data)
    ensures |EncodeBits(Codes(tree, ""), data)| == Cost(Codes(tree, ""), Count(data))
    ensures IsBits(EncodeBits(Codes(tree, ""), data))
  {
    var codes := Codes(tree, "");
    KeysAreDistinct(tree, Count(data));
    TreeCodes(tree);
    assert Covers(codes, data) by {
      CountIsMultiset(data);
      forall i | 0 <= i < |data| ensures data[i] in codes {
        assert data[i] in Count(data);
        assert Occurrences(tree, data[i]) == 1;
      }
    }
    EncodedLength(codes, data);
    EncodeBitsAreBits(codes, data);
  }

  /** The image as a numpy array: its shape and samples. */
  datatype Image = Image(height: nat, width: nat, channels: nat, samples: seq<Byte>)

  /** `image.size`: the number of elements of the array. */
  function Size(image: Image): nat {
    image.height * image.width * image.channels
  }

  datatype CompressError =
    | EncodeFailed           // `cv2.imencode` reported failure: ValueError
    | TreeFailed(e: TreeError)

  /** What `huffman_compress` returns: the image, the compression ratio and
      the placeholder metrics. */
  datatype HuffmanOutcome = HuffmanOutcome(image: Image, compressionRatio: real, mse: int, psnr: int)

  /** `huffman_compress(image)`. The JPEG encoding of the image by
      `cv2.imencode` is a parameter (None when it fails). Besides the result,
      the tree, the code table and the encoded bytes that the source computes
      and then drops are returned so that their properties can be stated. */
  method HuffmanCompress(image: Image, encoded: Option<seq<Byte>>)
    returns (r: Result<HuffmanOutcome, CompressError>, tree: Node, codes: map<Byte, string>, encodedBytes: seq<Byte>)
    ensures encoded.None? ==> r == Err(EncodeFailed)
    ensures encoded == Some([]) ==> r == Err(TreeFailed(EmptyHeap))
    ensures r.Ok? <==> encoded.Some? && encoded.value != []
    ensures r.Ok? ==>
      var data := encoded.value;
      LeavesAreKeys(tree, Count(data)) &&
      WellFormed(tree, Count(data)) &&
      tree.freq == |data| &&
      codes == Codes(tree, "") && PrefixFree(codes) &&
      Covers(codes, data) &&
      var bits := EncodeBits(codes, data);
      |bits| == Cost(codes, Count(data)) &&
      |encodedBytes| == |bits| / 8 + 1 &&
      UnpackBits(encodedBytes) == PadBits(bits) &&
      r.value == HuffmanOutcome(image, (Size(image) * 8) as real / (|encodedBytes| * 8) as real, 0, 100)
  {
    tree, codes, encodedBytes := Leaf(0, 0), map[], [];
    if encoded.None? {
      r := Err(EncodeFailed);
      return;
    }
    var flattened := encoded.value;
    var frequencies := Count(flattened);
    var built := BuildHuffmanTree(frequencies);
    if built.Err? {
      r := Err(TreeFailed(EmptyHeap));
      return;
    }
    tree := built.value;
    TotalOfCount(flattened);
    codes := BuildHuffmanCodes(tree);
    CodeTableFacts(flattened, tree);
    var encodedBits := EncodeBits(codes, flattened);
    var padding := 8 - |encodedBits| % 8;
    var padded := encodedBits + Zeros(padding);
    assert padded == PadBits(encodedBits);
    PaddedLength(encodedBits);
    encodedBytes := PackBits(padded);
    var originalSize := Size(image) * 8;
    var compressedSize := |encodedBytes| * 8;
    var compressionRatio := originalSize as real / compressedSize as real;
    r := Ok(HuffmanOutcome(image, compressionRatio, 0, 100));
  }
}
