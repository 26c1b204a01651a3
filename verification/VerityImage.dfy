/** The verity format helpers: parameter checks, padding, and the loops that write a tree. */
module VerityImage {
  import opened CeilArithmetic
  import opened Verity

  datatype Algorithm = Sha256 | Sha512 | OtherAlgorithm

  datatype Error =
    | UnsupportedAlgorithm
    | BadDataBlockSize
    | BadHashBlockSize
    | BadDigestRatio
    | EmptySalt
    | SaltTooLong
    | EmptyImage
    | PartialBlock

  datatype Result<T> = Ok(value: T) | Err(error: Error)

  // ── Parameters ───────────────────────────────────────────────────────

  /** Bitwise `a & b`. */
  function BitAnd(a: nat, b: nat): nat {
    if a == 0 || b == 0 then 0 else 2 * BitAnd(a / 2, b / 2) + (if a % 2 == 1 && b % 2 == 1 then 1 else 0)
  }

  predicate PowerOfTwo(n: nat) {
    n == 1 || (n > 1 && n % 2 == 0 && PowerOfTwo(n / 2))
  }

  /** `n & (n - 1)` vanishes exactly on powers of two. */
  lemma {:induction false} BitTrick(n: nat)
    requires n > 0
    ensures BitAnd(n, n - 1) == 0 <==> PowerOfTwo(n)
  {
    if n > 1 {
      if n % 2 == 0 {
        BitTrick(n / 2);
        assert (n - 1) / 2 == n / 2 - 1 && (n - 1) % 2 == 1;
      } else {
        assert (n - 1) / 2 == n / 2 && (n - 1) % 2 == 0;
        BitAndSelf(n / 2);
      }
    }
  }

  lemma {:induction false} BitAndSelf(n: nat)
    ensures BitAnd(n, n) == n
  {
    if n > 0 { BitAndSelf(n / 2); }
  }

  predicate BadBlockSize(value: int) {
    value < 512 || value > 65536 || BitAnd(value, value - 1) != 0
  }

  function DigestSize(a: Algorithm): nat {
    match a
    case Sha256 => 32
    case Sha512 => 64
    case OtherAlgorithm => 0
  }

  /** How many digests fill a hash block, once every parameter has been checked. */
  function ValidateParameters(algorithm: Algorithm, dataBlockSize: int, hashBlockSize: int, salt: Bytes): Result<nat> {
    if algorithm.OtherAlgorithm? then Err(UnsupportedAlgorithm)
    else if BadBlockSize(dataBlockSize) then Err(BadDataBlockSize)
    else if BadBlockSize(hashBlockSize) then Err(BadHashBlockSize)
    else
      var perBlock := hashBlockSize / DigestSize(algorithm);
      if perBlock == 0 || BitAnd(perBlock, perBlock - 1) != 0 then Err(BadDigestRatio)
      else if salt == [] then Err(EmptySalt)
      else if |salt| > 256 then Err(SaltTooLong)
      else Ok(perBlock)
  }

  /** A power of two at least `2^k` is `2^k` times another. */
  lemma {:induction false} HalveTimes(n: nat, k: nat) returns (m: nat)
    requires PowerOfTwo(n) && n >= Double(k)
    ensures PowerOfTwo(m) && n == m * Double(k)
  {
    if k == 0 {
      m := n;
    } else {
      var half := HalveTimes(n / 2, k - 1);
      m := half;
      assert n == 2 * (half * Double(k - 1)) == half * (2 * Double(k - 1));
    }
  }

  function Double(k: nat): (r: nat)
    ensures r >= 1
  {
    if k == 0 then 1 else 2 * Double(k - 1)
  }

  lemma DigestsPerBlock(algorithm: Algorithm, hashBlockSize: nat) returns (m: nat)
    requires !algorithm.OtherAlgorithm? && PowerOfTwo(hashBlockSize) && hashBlockSize >= 512
    ensures m == hashBlockSize / DigestSize(algorithm) && m >= 8 && PowerOfTwo(m)
    ensures hashBlockSize == m * DigestSize(algorithm)
  {
    assert Double(1) == 2 && Double(2) == 4 && Double(3) == 8 && Double(4) == 16 && Double(5) == 32 && Double(6) == 64;
    if algorithm.Sha256? {
      m := HalveTimes(hashBlockSize, 5);
    } else {
      m := HalveTimes(hashBlockSize, 6);
    }
  }

  /** Accepted parameters give at least eight digests to a block and fill it exactly; the ratio check never fires. */
  lemma AcceptedParameters(algorithm: Algorithm, dataBlockSize: int, hashBlockSize: int, salt: Bytes)
    ensures var r := ValidateParameters(algorithm, dataBlockSize, hashBlockSize, salt);
      && r != Err(BadDigestRatio)
      && (r.Ok? ==> r.value >= 8 && r.value * DigestSize(algorithm) == hashBlockSize && PowerOfTwo(r.value)
                    && 512 <= dataBlockSize <= 65536 && PowerOfTwo(dataBlockSize))
  {
    if !algorithm.OtherAlgorithm? && !BadBlockSize(dataBlockSize) && !BadBlockSize(hashBlockSize) {
      BitTrick(dataBlockSize);
      BitTrick(hashBlockSize);
      var perBlock := DigestsPerBlock(algorithm, hashBlockSize);
      BitTrick(perBlock);
    }
  }

  // ── Padding ──────────────────────────────────────────────────────────

  datatype Copy = Copy(size: nat, contentDigest: Bytes, data: Bytes)

  /** Copy an image in chunks, digesting what is read, and pad it to whole blocks. */
  method CopyAndMeasure(source: Bytes, dataBlockSize: nat, sha256: Bytes -> Bytes) returns (r: Result<Copy>)
    requires dataBlockSize > 0
    ensures r.Err? <==> source == []
    ensures r.Err? ==> r.error == EmptyImage
    ensures r.Ok? ==>
      && r.value.size == |source| && r.value.contentDigest == sha256(source)
      && |r.value.data| % dataBlockSize == 0 && |source| <= |r.value.data| < |source| + dataBlockSize
      && r.value.data[..|source|] == source
      && forall i :: |source| <= i < |r.value.data| ==> r.value.data[i] == 0
  {
    var content: Bytes, output: Bytes, size := [], [], 0;
    var position := 0;
    while position < |source|
      invariant 0 <= position <= |source| && content == output == source[..position] && size == position
    {
      var end := if position + 0x10_0000 <= |source| then position + 0x10_0000 else |source|;
      var chunk := source[position..end];
      content := content + chunk;
      output := output + chunk;
      size := size + |chunk|;
      position := end;
    }
    assert source[..|source|] == source;
    if size == 0 { return Err(EmptyImage); }
    var padding := (-(size as int)) % dataBlockSize;
    PaddingFills(size, dataBlockSize);
    if padding != 0 { output := output + Zeros(padding); }
    return Ok(Copy(size, sha256(content), output));
  }

  lemma PaddingFills(size: nat, block: nat)
    requires block > 0
    ensures 0 <= (-(size as int)) % block < block && (size + (-(size as int)) % block) % block == 0
  {
    var q, r := (-(size as int)) / block, (-(size as int)) % block;
    assert -(size as int) == block * q + r;
    Commute(block, q);
    assert size + r == (-q) * block + 0 by { assert (-q) * block == -(q * block); }
    DivideUniqueInt(size + r, block, -q);
  }

  lemma DivideUniqueInt(i: nat, h: nat, q: int)
    requires h > 0 && i == q * h
    ensures i % h == 0
  {
    DivideUnique(i, h, q, 0);
  }

  // ── Digesting the data ───────────────────────────────────────────────

  /** The whole blocks of an image. */
  function Blocks(image: Bytes, size: nat): seq<Bytes>
    requires size > 0
  {
    if |image| < size then [] else [image[..size]] + Blocks(image[size..], size)
  }

  /** Nothing left over after the last block. */
  predicate WholeBlocks(image: Bytes, size: nat)
    requires size > 0
  {
    if |image| < size then image == [] else WholeBlocks(image[size..], size)
  }

  lemma {:induction false} WholeIsMultiple(image: Bytes, size: nat)
    requires size > 0
    ensures WholeBlocks(image, size) <==> |image| % size == 0
  {
    if |image| < size {
      DivideUnique(|image|, size, 0, |image|);
    } else {
      WholeIsMultiple(image[size..], size);
      GroupIsDivision(|image|, size);
      GroupIsDivision(|image| - size, size);
    }
  }

  /** Cutting an image into blocks loses nothing. */
  lemma {:induction false} BlocksLossless(image: Bytes, size: nat)
    requires size > 0 && WholeBlocks(image, size)
    ensures Concat(Blocks(image, size)) == image
  {
    if |image| >= size {
      BlocksLossless(image[size..], size);
      assert image == image[..size] + image[size..];
      assert Blocks(image, size)[1..] == Blocks(image[size..], size);
    }
  }

  lemma BlocksStep(f: Format, rest: Bytes, size: nat)
    requires 0 < size <= |rest|
    ensures Digests(f, Blocks(rest, size)) == [Digest(f, rest[..size])] + Digests(f, Blocks(rest[size..], size))
    ensures WholeBlocks(rest, size) == WholeBlocks(rest[size..], size)
  {
  }

  method HashData(image: Bytes, f: Format, blockSize: nat) returns (r: Result<seq<Bytes>>)
    requires blockSize > 0
    ensures r == if WholeBlocks(image, blockSize) then Ok(Digests(f, Blocks(image, blockSize))) else Err(PartialBlock)
    ensures r.Ok? ==> forall i :: 0 <= i < |r.value| ==> r.value[i] == f.hash(f.salt + Blocks(image, blockSize)[i])
  {
    var digests: seq<Bytes> := [];
    var position := 0;
    ghost var rest := image;
    while true
      invariant 0 <= position <= |image| && rest == image[position..]
      invariant WholeBlocks(rest, blockSize) == WholeBlocks(image, blockSize)
      invariant digests + Digests(f, Blocks(rest, blockSize)) == Digests(f, Blocks(image, blockSize))
      decreases |image| - position
    {
      var end := if position + blockSize <= |image| then position + blockSize else |image|;
      var block := image[position..end];
      if block == [] { break; }
      if |block| != blockSize { return Err(PartialBlock); }
      BlocksStep(f, rest, blockSize);
      assert rest[..blockSize] == block;
      digests := digests + [Digest(f, block)];
      position := end;
      rest := rest[blockSize..];
    }
    assert rest == [] && WholeBlocks(rest, blockSize) && Blocks(rest, blockSize) == [];
    assert digests + Digests(f, []) == digests;
    return Ok(digests);
  }

  // ── Building ─────────────────────────────────────────────────────────

  lemma LevelStep(f: Format, rest: seq<Bytes>, n: nat)
    requires f.perBlock > 0 && rest != [] && n == if |rest| <= f.perBlock then |rest| else f.perBlock
    ensures Level(f, rest) == [PadTo(Concat(rest[..n]), f.blockSize)] + Level(f, rest[n..])
  {
    if |rest| <= f.perBlock { assert rest[..n] == rest; }
  }

  method BuildLevel(f: Format, digests: seq<Bytes>) returns (blocks: seq<Bytes>)
    requires f.perBlock > 0
    ensures blocks == Level(f, digests)
  {
    blocks := [];
    var offset := 0;
    ghost var rest := digests;
    while offset < |digests|
      invariant 0 <= offset <= |digests| && rest == digests[offset..]
      invariant blocks + Level(f, rest) == Level(f, digests)
    {
      var end := if offset + f.perBlock <= |digests| then offset + f.perBlock else |digests|;
      LevelStep(f, rest, end - offset);
      assert rest[..end - offset] == digests[offset..end];
      blocks := blocks + [PadTo(Concat(digests[offset..end]), f.blockSize)];
      rest := rest[end - offset..];
      offset := end;
    }
  }

  /** Levels computed from the data upwards, in the order they are stored. */
  function TopDown(levels: seq<seq<Bytes>>): seq<Bytes> {
    if levels == [] then [] else levels[|levels| - 1] + TopDown(levels[..|levels| - 1])
  }

  function BlockCount(levels: seq<seq<Bytes>>): nat {
    if levels == [] then 0 else |levels[|levels| - 1]| + BlockCount(levels[..|levels| - 1])
  }

  lemma {:induction false} TopDownCount(levels: seq<seq<Bytes>>)
    ensures |TopDown(levels)| == BlockCount(levels)
  {
    if levels != [] { TopDownCount(levels[..|levels| - 1]); }
  }

  /** Stored top first, the levels are the tree. */
  lemma {:induction false} TopDownIsTree(f: Format, digests: seq<Bytes>)
    requires f.perBlock >= 2
    ensures TopDown(LevelsOf(f, digests)) == Tree(f, digests)
    decreases |digests|
  {
    if |digests| > 1 {
      TopDownIsTree(f, Up(f, digests));
      TopDownBelow(Level(f, digests), LevelsOf(f, Up(f, digests)));
    }
  }

  lemma {:induction false} TopDownBelow(blocks: seq<Bytes>, levels: seq<seq<Bytes>>)
    ensures TopDown([blocks] + levels) == TopDown(levels) + blocks
  {
    if levels == [] {
      assert [blocks] + levels == [blocks] && TopDown([blocks]) == blocks + TopDown([]);
    } else {
      var front, top := levels[..|levels| - 1], levels[|levels| - 1];
      assert ([blocks] + levels)[..|levels|] == [blocks] + front && ([blocks] + levels)[|levels|] == top;
      TopDownBelow(blocks, front);
    }
  }

  /**
   * The layout of a tree over `width` digests: as few levels as cover them,
   * level `i` with one block per `h` to the `i + 1`, rounded up.
   */
  ghost predicate Layout(f: Format, digests: seq<Bytes>, levels: seq<seq<Bytes>>)
    requires f.perBlock >= 2
  {
    && |levels| == Levels(|digests|, f.perBlock)
    && forall i :: 0 <= i < |levels| ==>
         && levels[i] == Level(f, UpTimes(f, digests, i))
         && Power(f.perBlock, i + 1) > 0 && |levels[i]| == CeilDiv(|digests|, Power(f.perBlock, i + 1))
  }

  lemma LevelsLaidOut(f: Format, digests: seq<Bytes>)
    requires f.perBlock >= 2
    ensures Layout(f, digests, LevelsOf(f, digests))
  {
    LevelsAre(f, digests);
    forall i | 0 <= i < |LevelsOf(f, digests)|
      ensures Power(f.perBlock, i + 1) > 0
      ensures |LevelsOf(f, digests)[i]| == CeilDiv(|digests|, Power(f.perBlock, i + 1))
    {
      LevelBlocks(f, digests, i);
    }
  }

  /** The hash file is its levels, top first, and they are laid out as the format says. */
  lemma HashFileLayout(f: Format, blocks: seq<Bytes>)
    requires f.perBlock >= 2
    ensures var levels := LevelsOf(f, Digests(f, blocks));
      Layout(f, Digests(f, blocks), levels) && HashFile(f, blocks) == Concat(TopDown(levels))
  {
    LevelsLaidOut(f, Digests(f, blocks));
    TopDownIsTree(f, Digests(f, blocks));
  }

  /** Compute every level up to the one with a single block. */
  method BuildLevels(f: Format, data: seq<Bytes>) returns (levels: seq<seq<Bytes>>, root: Bytes)
    requires ValidFormat(f) && |data| >= 2
    ensures Layout(f, data, levels) && TopDown(levels) == Tree(f, data)
    ensures root == MerkleRoot(f, data)
  {
    var digests := data;
    levels := [];
    while true
      invariant |digests| >= 2 && MerkleRoot(f, digests) == MerkleRoot(f, data)
      invariant levels + LevelsOf(f, digests) == LevelsOf(f, data)
      decreases |digests|
    {
      var blocks := BuildLevel(f, digests);
      ghost var above := LevelsOf(f, Digests(f, blocks));
      assert levels + ([blocks] + above) == levels + [blocks] + above;
      levels := levels + [blocks];
      if |blocks| == 1 {
        root := Digest(f, blocks[0]);
        assert levels + [] == levels;
        break;
      }
      digests := Digests(f, blocks);
    }
    LevelsLaidOut(f, data);
    TopDownIsTree(f, data);
  }

  method WriteBlocks(start: Bytes, blocks: seq<Bytes>) returns (file: Bytes)
    ensures file == start + Concat(blocks)
  {
    file := start;
    ghost var rest := blocks;
    for b := 0 to |blocks|
      invariant rest == blocks[b..] && file + Concat(rest) == start + Concat(blocks)
    {
      file := file + blocks[b];
      rest := rest[1..];
    }
    assert rest == [];
  }

  /** The last level comes first. */
  lemma TopDownNext(start: Bytes, levels: seq<seq<Bytes>>)
    requires levels != []
    ensures start + Concat(TopDown(levels))
         == start + Concat(levels[|levels| - 1]) + Concat(TopDown(levels[..|levels| - 1]))
  {
    ConcatAppend(levels[|levels| - 1], TopDown(levels[..|levels| - 1]));
  }

  /** Write the levels, last computed first. */
  method WriteLevels(levels: seq<seq<Bytes>>) returns (file: Bytes)
    ensures file == Concat(TopDown(levels))
  {
    file := [];
    var l := |levels|;
    ghost var rest := levels;
    while l > 0
      invariant 0 <= l <= |levels| && rest == levels[..l]
      invariant file + Concat(TopDown(rest)) == Concat(TopDown(levels))
    {
      l := l - 1;
      TopDownNext(file, rest);
      file := WriteBlocks(file, levels[l]);
      rest := rest[..l];
    }
  }

  datatype HashTree = HashTree(root: Bytes, dataBlocks: nat, treeSize: nat, file: Bytes)

  function FormatOf(algorithm: Algorithm, hash: Bytes -> Bytes, salt: Bytes, hashBlockSize: nat, perBlock: nat): Format {
    Format(hash, salt, DigestSize(algorithm), perBlock, hashBlockSize)
  }

  lemma OneBlock(blocks: seq<Bytes>)
    requires |blocks| == 1
    ensures blocks == [Concat(blocks)]
  {
    assert blocks[1..] == [] && blocks == [blocks[0]];
    assert Concat(blocks) == blocks[0] + Concat(blocks[1..]) == blocks[0];
  }

  /** Write a version-1 tree: parameters are checked first, then the data, then the tree is built. */
  method BuildHashTree(image: Bytes, algorithm: Algorithm, hash: Bytes -> Bytes, salt: Bytes, dataBlockSize: int,
                       hashBlockSize: int) returns (r: Result<HashTree>)
    requires forall x :: |hash(x)| == DigestSize(algorithm)
    ensures var v := ValidateParameters(algorithm, dataBlockSize, hashBlockSize, salt);
      if v.Err? then r == Err(v.error)
      else
        var f := FormatOf(algorithm, hash, salt, hashBlockSize, v.value);
        var blocks := Blocks(image, dataBlockSize);
        && ValidFormat(f)
        && (if |image| % dataBlockSize != 0 then r == Err(PartialBlock)
            else if image == [] then r == Err(EmptyImage)
            else
              && r.Ok? && Concat(blocks) == image && blocks != []
              && r.value.dataBlocks == |blocks|
              && r.value.root == MerkleRoot(f, Digests(f, blocks))
              && r.value.file == HashFile(f, blocks)
              && r.value.treeSize == |r.value.file|
              && (|blocks| == 1 ==> r.value.root == hash(salt + image) && r.value.file == []))
  {
    AcceptedParameters(algorithm, dataBlockSize, hashBlockSize, salt);
    var v := ValidateParameters(algorithm, dataBlockSize, hashBlockSize, salt);
    if v.Err? { return Err(v.error); }
    var f := FormatOf(algorithm, hash, salt, hashBlockSize, v.value);
    WholeIsMultiple(image, dataBlockSize);
    var d := HashData(image, f, dataBlockSize);
    if d.Err? { return Err(d.error); }
    BlocksLossless(image, dataBlockSize);
    ghost var blocks := Blocks(image, dataBlockSize);
    var digests := d.value;
    if digests == [] { return Err(EmptyImage); }
    if |digests| == 1 {
      OneBlock(blocks);
      return Ok(HashTree(digests[0], 1, 0, []));
    }
    var levels, root := BuildLevels(f, digests);
    var file := WriteLevels(levels);
    TopDownCount(levels);
    HashFileSize(f, blocks);
    return Ok(HashTree(root, |digests|, BlockCount(levels) * hashBlockSize, file));
  }

  /** At some position the two images, or what is stored above them, hold distinct blocks with one digest. */
  ghost predicate TreesClash(f: Format, x: seq<Bytes>, y: seq<Bytes>)
    requires f.perBlock >= 2 && |x| == |y|
  {
    exists i :: 0 <= i < |x| && (Collide(f, x[i], y[i]) || ClashAbove(f, HashFile(f, x), Digests(f, y), i))
  }

  /** Two padded images with as many blocks and the same root are the same image, or their trees collide. */
  lemma RootBindsImage(f: Format, a: Bytes, b: Bytes, size: nat)
    requires ValidFormat(f) && size > 0 && WholeBlocks(a, size) && WholeBlocks(b, size)
    requires |Blocks(a, size)| == |Blocks(b, size)| > 0
    requires MerkleRoot(f, Digests(f, Blocks(a, size))) == MerkleRoot(f, Digests(f, Blocks(b, size)))
    ensures a == b || TreesClash(f, Blocks(a, size), Blocks(b, size))
  {
    var x, y := Blocks(a, size), Blocks(b, size);
    BlocksLossless(a, size);
    BlocksLossless(b, size);
    if x != y {
      var i :| 0 <= i < |x| && x[i] != y[i];
      RootBindsData(f, x, y, i);
    }
  }
}
