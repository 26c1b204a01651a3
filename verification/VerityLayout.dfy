/** The bytes of a verity image's hash file and root, with the digest function and the salt written out. */
module VerityLayout {
  import opened CeilArithmetic
  import opened Verity
  import opened VerityImage

  // ── The data blocks ──────────────────────────────────────────────────

  /** The blocks of an image are its consecutive pieces. */
  lemma {:induction false} BlockOfImage(image: Bytes, size: nat, i: nat)
    requires size > 0 && i < |Blocks(image, size)|
    ensures i * size + size <= |image| && Blocks(image, size)[i] == image[i * size..i * size + size]
  {
    if i > 0 {
      BlockOfImage(image[size..], size, i - 1);
      MulStep(i - 1, size);
      assert i * size == (i - 1) * size + size;
      SliceAfter(image, size, (i - 1) * size, size);
    }
  }

  lemma SliceAfter(image: Bytes, from: nat, at: nat, size: nat)
    requires from + at + size <= |image|
    ensures image[from..][at..at + size] == image[at + from..at + from + size]
  {
  }

  /** The root of a one-block image is the digest of the salt and the image. */
  lemma OneBlockRoot(f: Format, image: Bytes, size: nat)
    requires size > 0 && |image| == size && f.perBlock >= 2
    ensures Blocks(image, size) == [image]
    ensures MerkleRoot(f, Digests(f, Blocks(image, size))) == f.hash(f.salt + image)
    ensures HashFile(f, Blocks(image, size)) == []
  {
    assert image[..size] == image && Blocks(image[size..], size) == [];
  }

  // ── Where blocks are stored ──────────────────────────────────────────

  /** Where the reader looks for the block over digest `idx` of level `k`, that block is. */
  lemma {:induction false} StoredLevel(f: Format, digests: seq<Bytes>, rest: Bytes, k: nat, idx: nat)
    requires ValidFormat(f) && AllOfSize(digests, f.digestSize) && |UpTimes(f, digests, k)| > 1
    requires idx < |UpTimes(f, digests, k)|
    ensures Group(idx, f.perBlock) < |Level(f, UpTimes(f, digests, k))|
    ensures BlockAt(Concat(Tree(f, digests)) + rest, BlockIndex(f, |UpTimes(f, digests, k)|, idx), f.blockSize)
         == Level(f, UpTimes(f, digests, k))[Group(idx, f.perBlock)]
    decreases k
  {
    if k == 0 {
      StoredBlock(f, digests, idx, rest);
    } else {
      UpShrinks(f, digests, k);
      TreeSplit(f, digests, rest);
      StoredLevel(f, Up(f, digests), Concat(Level(f, digests)) + rest, k - 1, idx);
    }
  }

  lemma {:induction false} UpShrinks(f: Format, digests: seq<Bytes>, k: nat)
    requires f.perBlock >= 2 && |UpTimes(f, digests, k)| > 1
    ensures |digests| > 1
    decreases k
  {
    if k > 0 { UpShrinks(f, Up(f, digests), k - 1); }
  }

  lemma {:induction false} UpSizes(f: Format, digests: seq<Bytes>, k: nat)
    requires ValidFormat(f) && AllOfSize(digests, f.digestSize)
    ensures AllOfSize(UpTimes(f, digests, k), f.digestSize)
    decreases k
  {
    if k > 0 { UpSizes(f, Up(f, digests), k - 1); }
  }

  lemma {:induction false} UpOnce(f: Format, digests: seq<Bytes>, k: nat)
    requires f.perBlock >= 2
    ensures UpTimes(f, digests, k + 1) == Up(f, UpTimes(f, digests, k))
    decreases k
  {
    if k > 0 { UpOnce(f, Up(f, digests), k - 1); }
  }

  // ── What is stored there ─────────────────────────────────────────────

  /** The block the reader finds over digest `idx` of a level `width` wide. */
  function BlockOver(f: Format, file: Bytes, width: nat, idx: nat): Bytes
    requires f.perBlock >= 2
  {
    BlockAt(file, BlockIndex(f, width, idx), f.blockSize)
  }

  /** The entry for it there. */
  function EntryOver(f: Format, file: Bytes, width: nat, idx: nat): Bytes
    requires f.perBlock >= 2
  {
    EntryAt(BlockOver(f, file, width, idx), InGroup(idx, f.perBlock), f.digestSize)
  }

  lemma StoredEntry(f: Format, digests: seq<Bytes>, k: nat, idx: nat)
    requires ValidFormat(f) && AllOfSize(digests, f.digestSize) && |UpTimes(f, digests, k)| > 1
    requires idx < |UpTimes(f, digests, k)|
    ensures EntryOver(f, Concat(Tree(f, digests)), |UpTimes(f, digests, k)|, idx) == UpTimes(f, digests, k)[idx]
  {
    UpSizes(f, digests, k);
    StoredLevel(f, digests, [], k, idx);
    assert Concat(Tree(f, digests)) + [] == Concat(Tree(f, digests));
    LevelEntry(f, UpTimes(f, digests, k), idx);
  }

  /** Over data block `i` stands the digest of the salt and the block. */
  lemma DataEntry(f: Format, blocks: seq<Bytes>, i: nat)
    requires ValidFormat(f) && |blocks| > 1 && i < |blocks|
    ensures EntryOver(f, HashFile(f, blocks), |blocks|, i) == f.hash(f.salt + blocks[i])
  {
    assert UpTimes(f, Digests(f, blocks), 0) == Digests(f, blocks);
    StoredEntry(f, Digests(f, blocks), 0, i);
  }

  /** Over each stored block but the first stands the digest of the salt and that block, as it is stored. */
  lemma HigherEntry(f: Format, blocks: seq<Bytes>, k: nat, idx: nat)
    requires ValidFormat(f) && |UpTimes(f, Digests(f, blocks), k)| > 1 && idx < |UpTimes(f, Digests(f, blocks), k)|
    requires |UpTimes(f, Digests(f, blocks), k + 1)| > 1
    ensures var d, file := Digests(f, blocks), HashFile(f, blocks);
      && Group(idx, f.perBlock) < |UpTimes(f, d, k + 1)|
      && EntryOver(f, file, |UpTimes(f, d, k + 1)|, Group(idx, f.perBlock))
         == f.hash(f.salt + BlockOver(f, file, |UpTimes(f, d, k)|, idx))
  {
    var d := Digests(f, blocks);
    UpOnce(f, d, k);
    GroupInRange(idx, |UpTimes(f, d, k)|, f.perBlock);
    StoredEntry(f, d, k + 1, Group(idx, f.perBlock));
    StoredLevel(f, d, [], k, idx);
    assert Concat(Tree(f, d)) + [] == Concat(Tree(f, d));
  }

  /** Level widths: one digest per `h` to the `k` data blocks, rounded up. */
  lemma WidthOf(f: Format, blocks: seq<Bytes>, k: nat)
    requires f.perBlock >= 2
    ensures Power(f.perBlock, k) > 0
    ensures |UpTimes(f, Digests(f, blocks), k)| == CeilDiv(|blocks|, Power(f.perBlock, k))
  {
    LevelWidth(f, Digests(f, blocks), k);
  }

  /** The root is the digest of the salt and the first stored block. */
  lemma RootEntry(f: Format, blocks: seq<Bytes>)
    requires ValidFormat(f) && |blocks| > 1
    ensures |HashFile(f, blocks)| >= f.blockSize
    ensures MerkleRoot(f, Digests(f, blocks)) == f.hash(f.salt + HashFile(f, blocks)[..f.blockSize])
  {
    RootOverFirst(f, Digests(f, blocks), []);
    assert HashFile(f, blocks) + [] == HashFile(f, blocks);
  }

  lemma {:induction false} RootOverFirst(f: Format, digests: seq<Bytes>, rest: Bytes)
    requires ValidFormat(f) && AllOfSize(digests, f.digestSize) && |digests| > 1
    ensures |Concat(Tree(f, digests)) + rest| >= f.blockSize
    ensures MerkleRoot(f, digests) == f.hash(f.salt + (Concat(Tree(f, digests)) + rest)[..f.blockSize])
    decreases |digests|
  {
    var up, level := Up(f, digests), Level(f, digests);
    TreeSplit(f, digests, rest);
    if |up| == 1 {
      LevelSizes(f, digests);
      assert level == [level[0]] && Concat(level) == level[0] + Concat(level[1..]);
      assert Concat(Tree(f, up)) == [] && [] + (Concat(level) + rest) == Concat(level) + rest;
      assert (Concat(level) + rest)[..f.blockSize] == level[0];
    } else {
      RootOverFirst(f, up, Concat(level) + rest);
    }
  }

  // ── Padding ──────────────────────────────────────────────────────────

  /** What digests leave of the last block of a level is zero. */
  lemma {:induction false} LevelPadding(f: Format, digests: seq<Bytes>, b: nat, t: nat)
    requires ValidFormat(f) && AllOfSize(digests, f.digestSize) && b < |Level(f, digests)|
    requires (|digests| - b * f.perBlock) * f.digestSize <= t < f.blockSize
    ensures |Level(f, digests)[b]| == f.blockSize && Level(f, digests)[b][t] == 0
    decreases |digests|
  {
    var h := f.perBlock;
    if |digests| <= h {
      ConcatSize(digests, f.digestSize);
      MulAtLeast(h, |digests|, f.digestSize);
    } else if b == 0 {
      MulAtLeast(|digests|, h, f.digestSize);
      assert false;
    } else {
      MulStep(b - 1, h);
      LevelPadding(f, digests[h..], b - 1, t);
    }
  }

  // ── What building a tree returns ─────────────────────────────────────

  /** The format a tree is built in, from the parameters it is built with. */
  lemma FormatIs(algorithm: Algorithm, hash: Bytes -> Bytes, salt: Bytes, hashBlockSize: nat, perBlock: nat)
    ensures var f := FormatOf(algorithm, hash, salt, hashBlockSize, perBlock);
      && f.hash == hash && f.salt == salt && f.blockSize == hashBlockSize && f.perBlock == perBlock
      && (algorithm.Sha256? ==> f.digestSize == 32) && (algorithm.Sha512? ==> f.digestSize == 64)
  {
  }

  /** What is accepted: a known algorithm, block sizes that are powers of two in range, one to 256 bytes of salt. */
  lemma AcceptedExactly(algorithm: Algorithm, dataBlockSize: nat, hashBlockSize: nat, salt: Bytes)
    ensures var r := ValidateParameters(algorithm, dataBlockSize, hashBlockSize, salt);
      && (r.Ok? <==>
            && (algorithm.Sha256? || algorithm.Sha512?) && 1 <= |salt| <= 256
            && 512 <= dataBlockSize <= 65536 && PowerOfTwo(dataBlockSize)
            && 512 <= hashBlockSize <= 65536 && PowerOfTwo(hashBlockSize))
      && (r.Ok? ==> r.value == hashBlockSize / if algorithm.Sha256? then 32 else 64)
  {
    AcceptedParameters(algorithm, dataBlockSize, hashBlockSize, salt);
    if dataBlockSize > 0 { BitTrick(dataBlockSize); }
    if hashBlockSize > 0 { BitTrick(hashBlockSize); }
  }
}
