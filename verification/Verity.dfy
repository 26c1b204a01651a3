/** dm-verity hash trees: what is written, what a reader checks, and what a root hash binds. */
module Verity {
  import opened CeilArithmetic

  type Byte = b: int | 0 <= b < 256
  type Bytes = seq<Byte>

  /** The digest function and its salt, and the shape of a hash block. */
  datatype Format = Format(hash: Bytes -> Bytes, salt: Bytes, digestSize: nat, perBlock: nat, blockSize: nat)

  ghost predicate ValidFormat(f: Format) {
    && f.digestSize > 0 && f.perBlock >= 2 && f.blockSize == f.perBlock * f.digestSize
    && forall x :: |f.hash(x)| == f.digestSize
  }

  /** Format version 1 prepends the salt. */
  function Digest(f: Format, block: Bytes): Bytes {
    f.hash(f.salt + block)
  }

  function Digests(f: Format, blocks: seq<Bytes>): (r: seq<Bytes>)
    ensures |r| == |blocks| && forall i :: 0 <= i < |blocks| ==> r[i] == Digest(f, blocks[i])
  {
    seq(|blocks|, i requires 0 <= i < |blocks| => Digest(f, blocks[i]))
  }

  function Concat(parts: seq<Bytes>): Bytes {
    if parts == [] then [] else parts[0] + Concat(parts[1..])
  }

  function Zeros(n: nat): (r: Bytes)
    ensures |r| == n && forall i :: 0 <= i < n ==> r[i] == 0
  {
    seq(n, _ => 0)
  }

  /** `block.ljust(size, b"\0")` */
  function PadTo(block: Bytes, size: nat): (r: Bytes)
    ensures |block| <= size ==> |r| == size && r[..|block|] == block
  {
    if |block| < size then block + Zeros(size - |block|) else block
  }

  ghost predicate AllOfSize(parts: seq<Bytes>, size: nat) {
    forall i :: 0 <= i < |parts| ==> |parts[i]| == size
  }

  // ── The tree, as the format describes it ─────────────────────────────

  /** One level: digests in groups of `perBlock`, each group padded to a block. */
  function Level(f: Format, digests: seq<Bytes>): (r: seq<Bytes>)
    requires f.perBlock > 0
    ensures |r| == CeilDiv(|digests|, f.perBlock)
    decreases |digests|
  {
    if digests == [] then []
    else if |digests| <= f.perBlock then [PadTo(Concat(digests), f.blockSize)]
    else [PadTo(Concat(digests[..f.perBlock]), f.blockSize)] + Level(f, digests[f.perBlock..])
  }

  /** The digests one level up. */
  function Up(f: Format, digests: seq<Bytes>): (r: seq<Bytes>)
    requires f.perBlock >= 2
    ensures |r| == CeilDiv(|digests|, f.perBlock)
    ensures |digests| >= 2 ==> 1 <= |r| < |digests|
  {
    CeilBounds(|digests|, f.perBlock);
    Digests(f, Level(f, digests))
  }

  /** The hash blocks of a tree in stored order: higher levels before lower ones. */
  function Tree(f: Format, digests: seq<Bytes>): (r: seq<Bytes>)
    requires f.perBlock >= 2
    ensures |r| == TreeBlocks(|digests|, f.perBlock)
    decreases |digests|
  {
    if |digests| <= 1 then [] else Tree(f, Up(f, digests)) + Level(f, digests)
  }

  /** One digest is its own root; more are replaced by the digests of their blocks. */
  function MerkleRoot(f: Format, digests: seq<Bytes>): Bytes
    requires f.perBlock >= 2 && digests != []
    decreases |digests|
  {
    if |digests| == 1 then digests[0] else MerkleRoot(f, Up(f, digests))
  }

  /** How many hash blocks a tree over `width` digests has. */
  function TreeBlocks(width: nat, h: nat): nat
    requires h >= 2
    decreases width
  {
    if width <= 1 then 0
    else
      CeilBounds(width, h);
      TreeBlocks(CeilDiv(width, h), h) + CeilDiv(width, h)
  }

  // ── A reader ─────────────────────────────────────────────────────────

  /** Bytes `at * size` up to the next block, nothing past the end of the file. */
  function BlockAt(file: Bytes, at: nat, size: nat): Bytes {
    if at * size + size <= |file| then file[at * size..at * size + size] else []
  }

  /** The `i`-th digest of a block. */
  function EntryAt(block: Bytes, i: nat, size: nat): Bytes {
    if i * size + size <= |block| then block[i * size..i * size + size] else []
  }

  /** Where the hash block over digest `idx` of a level `width` wide is stored. */
  function BlockIndex(f: Format, width: nat, idx: nat): nat
    requires f.perBlock >= 2
  {
    TreeBlocks(CeilDiv(width, f.perBlock), f.perBlock) + Group(idx, f.perBlock)
  }

  /**
   * Walk from a digest to the root through a hash file nobody vouches for:
   * each block read must hold the digest below it in the right place, and its
   * own digest is what is looked for one level up.
   */
  predicate Walk(f: Format, file: Bytes, width: nat, idx: nat, digest: Bytes, root: Bytes)
    requires f.perBlock >= 2 && idx < width
    decreases width
  {
    if width == 1 then digest == root
    else
      CeilBounds(width, f.perBlock);
      GroupInRange(idx, width, f.perBlock);
      var block := BlockAt(file, BlockIndex(f, width, idx), f.blockSize);
      && EntryAt(block, InGroup(idx, f.perBlock), f.digestSize) == digest
      && Walk(f, file, CeilDiv(width, f.perBlock), Group(idx, f.perBlock), Digest(f, block), root)
  }

  /** A data block is accepted when its digest walks to the root. */
  predicate Accepts(f: Format, file: Bytes, width: nat, idx: nat, block: Bytes, root: Bytes)
    requires f.perBlock >= 2 && idx < width
  {
    Walk(f, file, width, idx, Digest(f, block), root)
  }

  // ── Fixed-size pieces laid end to end ────────────────────────────────

  lemma {:induction false} ConcatSize(parts: seq<Bytes>, size: nat)
    requires AllOfSize(parts, size)
    ensures |Concat(parts)| == |parts| * size
  {
    if parts != [] {
      ConcatSize(parts[1..], size);
      MulStep(|parts| - 1, size);
    }
  }

  lemma {:induction false} ConcatAt(parts: seq<Bytes>, size: nat, i: nat)
    requires AllOfSize(parts, size) && i < |parts|
    ensures BlockAt(Concat(parts), i, size) == parts[i]
  {
    ConcatSize(parts, size);
    MulStep(i, size);
    MulAtLeast(|parts|, i + 1, size);
    var c := Concat(parts);
    if i == 0 {
      assert c[..size] == parts[0];
    } else {
      ConcatAt(parts[1..], size, i - 1);
      ConcatSize(parts[1..], size);
      MulStep(i - 1, size);
      MulAtLeast(|parts| - 1, i, size);
      assert c[size..] == Concat(parts[1..]);
      assert c[i * size..i * size + size] == c[size..][(i - 1) * size..(i - 1) * size + size];
    }
  }

  lemma {:induction false} ConcatAppend(a: seq<Bytes>, b: seq<Bytes>)
    ensures Concat(a + b) == Concat(a) + Concat(b)
  {
    if a == [] {
      assert a + b == b;
    } else {
      assert (a + b)[1..] == a[1..] + b;
      ConcatAppend(a[1..], b);
    }
  }

  /** One group, padded: full size, and every digest in its place. */
  lemma GroupBlock(f: Format, group: seq<Bytes>, i: nat)
    requires ValidFormat(f) && AllOfSize(group, f.digestSize) && i < |group| <= f.perBlock
    ensures var b := PadTo(Concat(group), f.blockSize);
      |b| == f.blockSize && EntryAt(b, i, f.digestSize) == group[i]
  {
    var c, b := Concat(group), PadTo(Concat(group), f.blockSize);
    ConcatSize(group, f.digestSize);
    MulAtLeast(f.perBlock, |group|, f.digestSize);
    ConcatAt(group, f.digestSize, i);
    MulStep(i, f.digestSize);
    MulAtLeast(|group|, i + 1, f.digestSize);
    var lo, hi := i * f.digestSize, i * f.digestSize + f.digestSize;
    assert b[lo..hi] == b[..|c|][lo..hi] == c[lo..hi];
  }

  /** Every block of a level is one hash block long, and holds each digest where the reader looks. */
  lemma {:induction false} LevelEntry(f: Format, digests: seq<Bytes>, i: nat)
    requires ValidFormat(f) && AllOfSize(digests, f.digestSize) && i < |digests|
    ensures Group(i, f.perBlock) < |Level(f, digests)|
    ensures var b := Level(f, digests)[Group(i, f.perBlock)];
      |b| == f.blockSize && EntryAt(b, InGroup(i, f.perBlock), f.digestSize) == digests[i]
    decreases |digests|
  {
    var h := f.perBlock;
    GroupInRange(i, |digests|, h);
    if i < h {
      GroupBlock(f, if |digests| <= h then digests else digests[..h], i);
    } else {
      LevelEntry(f, digests[h..], i - h);
    }
  }

  lemma {:induction false} LevelSizes(f: Format, digests: seq<Bytes>)
    requires ValidFormat(f) && AllOfSize(digests, f.digestSize)
    ensures AllOfSize(Level(f, digests), f.blockSize)
    decreases |digests|
  {
    var h := f.perBlock;
    if digests != [] {
      GroupBlock(f, if |digests| <= h then digests else digests[..h], 0);
      if |digests| > h { LevelSizes(f, digests[h..]); }
    }
  }

  lemma {:induction false} TreeSizes(f: Format, digests: seq<Bytes>)
    requires ValidFormat(f) && AllOfSize(digests, f.digestSize)
    ensures AllOfSize(Tree(f, digests), f.blockSize)
    decreases |digests|
  {
    if |digests| > 1 {
      LevelSizes(f, digests);
      TreeSizes(f, Up(f, digests));
    }
  }

  // ── Every block of the image the tree was made for is accepted ───────

  /** The stored tree of a level has that level's blocks where the reader looks for them. */
  lemma StoredBlock(f: Format, digests: seq<Bytes>, idx: nat, rest: Bytes)
    requires ValidFormat(f) && AllOfSize(digests, f.digestSize) && idx < |digests| && |digests| > 1
    ensures Group(idx, f.perBlock) < |Level(f, digests)|
    ensures BlockAt(Concat(Tree(f, digests)) + rest, BlockIndex(f, |digests|, idx), f.blockSize)
         == Level(f, digests)[Group(idx, f.perBlock)]
  {
    var tree := Tree(f, digests);
    var at := BlockIndex(f, |digests|, idx);
    GroupInRange(idx, |digests|, f.perBlock);
    TreeSizes(f, digests);
    assert tree[at] == Level(f, digests)[Group(idx, f.perBlock)];
    ConcatAt(tree, f.blockSize, at);
    ConcatSize(tree, f.blockSize);
    MulStep(at, f.blockSize);
    MulAtLeast(|tree|, at + 1, f.blockSize);
    BlockAtPrefix(Concat(tree), rest, at, f.blockSize);
  }

  lemma BlockAtPrefix(file: Bytes, rest: Bytes, at: nat, size: nat)
    requires at * size + size <= |file|
    ensures BlockAt(file + rest, at, size) == BlockAt(file, at, size)
  {
    var lo, hi := at * size, at * size + size;
    assert (file + rest)[lo..hi] == file[lo..hi];
  }

  lemma TreeSplit(f: Format, digests: seq<Bytes>, rest: Bytes)
    requires ValidFormat(f) && |digests| > 1
    ensures Concat(Tree(f, digests)) + rest == Concat(Tree(f, Up(f, digests))) + (Concat(Level(f, digests)) + rest)
  {
    ConcatSplit(Tree(f, Up(f, digests)), Level(f, digests), rest);
  }

  lemma ConcatSplit(xs: seq<Bytes>, ys: seq<Bytes>, rest: Bytes)
    ensures Concat(xs + ys) + rest == Concat(xs) + (Concat(ys) + rest)
  {
    ConcatAppend(xs, ys);
  }

  /** One step of a walk through a stored tree. */
  lemma WalkUp(f: Format, digests: seq<Bytes>, idx: nat, rest: Bytes)
    requires ValidFormat(f) && AllOfSize(digests, f.digestSize) && idx < |digests| && |digests| > 1
    ensures Group(idx, f.perBlock) < |Up(f, digests)|
    ensures Walk(f, Concat(Tree(f, digests)) + rest, |Up(f, digests)|, Group(idx, f.perBlock),
                 Up(f, digests)[Group(idx, f.perBlock)], MerkleRoot(f, digests))
      ==> Walk(f, Concat(Tree(f, digests)) + rest, |digests|, idx, digests[idx], MerkleRoot(f, digests))
  {
    StoredBlock(f, digests, idx, rest);
    LevelEntry(f, digests, idx);
  }

  lemma {:induction false} HonestWalk(f: Format, digests: seq<Bytes>, idx: nat, rest: Bytes)
    requires ValidFormat(f) && AllOfSize(digests, f.digestSize) && idx < |digests|
    ensures Walk(f, Concat(Tree(f, digests)) + rest, |digests|, idx, digests[idx], MerkleRoot(f, digests))
    decreases |digests|
  {
    if |digests| > 1 {
      TreeSplit(f, digests, rest);
      WalkUp(f, digests, idx, rest);
      HonestWalk(f, Up(f, digests), Group(idx, f.perBlock), Concat(Level(f, digests)) + rest);
    }
  }

  // ── And nothing else is, unless the digest function collides there ───

  /** Two distinct blocks with the same salted digest. */
  predicate Collide(f: Format, x: Bytes, y: Bytes) {
    x != y && Digest(f, x) == Digest(f, y)
  }

  /** Somewhere on the way up from `idx`, the block in the file collides with the block the tree has there. */
  predicate ClashAbove(f: Format, file: Bytes, digests: seq<Bytes>, idx: nat)
    requires f.perBlock >= 2 && idx < |digests|
    decreases |digests|
  {
    if |digests| == 1 then false
    else
      GroupInRange(idx, |digests|, f.perBlock);
      || Collide(f, BlockAt(file, BlockIndex(f, |digests|, idx), f.blockSize), Level(f, digests)[Group(idx, f.perBlock)])
      || ClashAbove(f, file, Up(f, digests), Group(idx, f.perBlock))
  }

  /** A digest that walks to the root of a tree is that tree's digest, whatever hash file it walked through. */
  lemma {:induction false} WalkBinds(f: Format, file: Bytes, digests: seq<Bytes>, idx: nat, digest: Bytes)
    requires ValidFormat(f) && AllOfSize(digests, f.digestSize) && idx < |digests|
    requires Walk(f, file, |digests|, idx, digest, MerkleRoot(f, digests))
    ensures digest == digests[idx] || ClashAbove(f, file, digests, idx)
    decreases |digests|
  {
    if |digests| > 1 {
      var block := BlockAt(file, BlockIndex(f, |digests|, idx), f.blockSize);
      GroupInRange(idx, |digests|, f.perBlock);
      LevelEntry(f, digests, idx);
      WalkBinds(f, file, Up(f, digests), Group(idx, f.perBlock), Digest(f, block));
    }
  }

  /** A block accepted in place of another is the same block, or exhibits a collision with it or above it. */
  lemma AcceptedBlockBinds(f: Format, file: Bytes, blocks: seq<Bytes>, idx: nat, block: Bytes)
    requires ValidFormat(f) && idx < |blocks|
    requires Accepts(f, file, |blocks|, idx, block, MerkleRoot(f, Digests(f, blocks)))
    ensures block == blocks[idx] || Collide(f, block, blocks[idx])
         || ClashAbove(f, file, Digests(f, blocks), idx)
  {
    WalkBinds(f, file, Digests(f, blocks), idx, Digest(f, block));
  }

  /** The file a tree is stored as. */
  function HashFile(f: Format, blocks: seq<Bytes>): Bytes
    requires f.perBlock >= 2
  {
    Concat(Tree(f, Digests(f, blocks)))
  }

  lemma EveryBlockAccepted(f: Format, blocks: seq<Bytes>, idx: nat)
    requires ValidFormat(f) && idx < |blocks|
    ensures Accepts(f, HashFile(f, blocks), |blocks|, idx, blocks[idx], MerkleRoot(f, Digests(f, blocks)))
  {
    HonestWalk(f, Digests(f, blocks), idx, []);
    assert HashFile(f, blocks) + [] == HashFile(f, blocks);
  }

  /** Images of one length with one root are equal, block for block, unless their trees collide. */
  lemma RootBindsData(f: Format, a: seq<Bytes>, b: seq<Bytes>, idx: nat)
    requires ValidFormat(f) && |a| == |b| && idx < |a|
    requires MerkleRoot(f, Digests(f, a)) == MerkleRoot(f, Digests(f, b))
    ensures a[idx] == b[idx] || Collide(f, a[idx], b[idx]) || ClashAbove(f, HashFile(f, a), Digests(f, b), idx)
  {
    EveryBlockAccepted(f, a, idx);
    AcceptedBlockBinds(f, HashFile(f, a), b, idx, a[idx]);
  }

  // ── The layout in the kernel's terms ─────────────────────────────────

  function Power(h: nat, i: nat): nat {
    if i == 0 then 1 else h * Power(h, i - 1)
  }

  lemma {:induction false} PowerPositive(h: nat, i: nat)
    requires h > 0
    ensures Power(h, i) > 0
  {
    if i > 0 {
      PowerPositive(h, i - 1);
      Positive(h, Power(h, i - 1));
    }
  }

  /** The digests `i` levels above the data. */
  function UpTimes(f: Format, digests: seq<Bytes>, i: nat): seq<Bytes>
    requires f.perBlock >= 2
    decreases i
  {
    if i == 0 then digests else UpTimes(f, Up(f, digests), i - 1)
  }

  /** How many levels of hash blocks there are. */
  function Levels(width: nat, h: nat): nat
    requires h >= 2
    decreases width
  {
    if width <= 1 then 0
    else
      CeilBounds(width, h);
      1 + Levels(CeilDiv(width, h), h)
  }

  /** Level `i` has one digest per `h` to the `i` data blocks, rounded up. */
  lemma {:induction false} LevelWidth(f: Format, digests: seq<Bytes>, i: nat)
    requires f.perBlock >= 2
    ensures Power(f.perBlock, i) > 0 && |UpTimes(f, digests, i)| == CeilDiv(|digests|, Power(f.perBlock, i))
    decreases i
  {
    var h := f.perBlock;
    PowerPositive(h, i);
    if i == 0 {
      CeilOne(|digests|);
    } else {
      LevelWidth(f, Up(f, digests), i - 1);
      PowerPositive(h, i - 1);
      CeilCompose(|digests|, h, Power(h, i - 1));
    }
  }

  /** The levels of a tree, from the one above the data to the one with a single block. */
  function LevelsOf(f: Format, digests: seq<Bytes>): seq<seq<Bytes>>
    requires f.perBlock >= 2
    decreases |digests|
  {
    if |digests| <= 1 then [] else [Level(f, digests)] + LevelsOf(f, Up(f, digests))
  }

  /** Level `i` of a tree has one block per `h` to the `i + 1` data blocks, rounded up, and there are `Levels` of them. */
  lemma {:induction false} LevelsAre(f: Format, digests: seq<Bytes>)
    requires f.perBlock >= 2
    ensures |LevelsOf(f, digests)| == Levels(|digests|, f.perBlock)
    ensures forall i :: 0 <= i < |LevelsOf(f, digests)| ==> LevelsOf(f, digests)[i] == Level(f, UpTimes(f, digests, i))
    decreases |digests|
  {
    if |digests| > 1 {
      var up := Up(f, digests);
      LevelsAre(f, up);
      forall i | 0 <= i < |LevelsOf(f, digests)| ensures LevelsOf(f, digests)[i] == Level(f, UpTimes(f, digests, i)) {
        if i > 0 { assert LevelsOf(f, digests)[i] == LevelsOf(f, up)[i - 1]; }
      }
    }
  }

  lemma LevelBlocks(f: Format, digests: seq<Bytes>, i: nat)
    requires f.perBlock >= 2
    ensures Power(f.perBlock, i + 1) > 0
    ensures |Level(f, UpTimes(f, digests, i))| == CeilDiv(|digests|, Power(f.perBlock, i + 1))
  {
    PowerPositive(f.perBlock, i);
    PowerPositive(f.perBlock, i + 1);
    LevelWidth(f, digests, i);
    CeilCompose(|digests|, Power(f.perBlock, i), f.perBlock);
    Commute(Power(f.perBlock, i), f.perBlock);
  }

  lemma {:induction false} CeilOne(n: nat)
    ensures CeilDiv(n, 1) == n
  {
    if n > 1 { CeilOne(n - 1); }
  }

  /** The level count is the least power of `h` that covers the data. */
  lemma {:induction false} LevelsLeast(width: nat, h: nat)
    requires h >= 2 && width >= 1
    ensures width <= Power(h, Levels(width, h))
    ensures Levels(width, h) > 0 ==> Power(h, Levels(width, h) - 1) < width
    decreases width
  {
    if width > 1 {
      CeilBounds(width, h);
      var up := CeilDiv(width, h);
      var l := Levels(up, h);
      LevelsLeast(up, h);
      CeilBracket(width, h);
      MulAtLeast(Power(h, l), up, h);
      Commute(Power(h, l), h);
      if l > 0 {
        MulAtLeast(up - 1, Power(h, l - 1), h);
        Commute(Power(h, l - 1), h);
      }
    }
  }

  /** Stored size: every block counted once. */
  lemma HashFileSize(f: Format, blocks: seq<Bytes>)
    requires ValidFormat(f)
    ensures |HashFile(f, blocks)| == TreeBlocks(|blocks|, f.perBlock) * f.blockSize
  {
    TreeSizes(f, Digests(f, blocks));
    ConcatSize(Tree(f, Digests(f, blocks)), f.blockSize);
  }
}
