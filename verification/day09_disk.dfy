/** Day 9: a dense disk map of alternating file and free-space lengths is
    expanded into cells, compacted (challenge 1 moves single cells,
    challenge 2 whole files) and summarised by a checksum. */
module DiskMap {
  import opened Options
  import opened Text

  // ---------------------------------------------------------------------
  // splitStringEveryTwoChars

  function Min(a: int, b: int): int
  {
    if a <= b then a else b
  }

  /** Chunk `k` is `data.slice(2k, 2k + 2)`. */
  function SplitEveryTwo(data: string): (chunks: seq<string>)
    ensures |chunks| == (|data| + 1) / 2
    decreases |data|
  {
    if |data| == 0 then []
    else if |data| <= 2 then [data]
    else [data[..2]] + SplitEveryTwo(data[2..])
  }

  lemma {:induction false} ChunkAt(data: string, k: nat)
    requires k < |SplitEveryTwo(data)|
    ensures SplitEveryTwo(data)[k] == data[2 * k..Min(2 * k + 2, |data|)]
    decreases |data|
  {
    if k > 0 {
      ChunkAt(data[2..], k - 1);
    }
  }

  function Concat(chunks: seq<string>): string
  {
    if |chunks| == 0 then [] else chunks[0] + Concat(chunks[1..])
  }

  /** The chunks are two characters long except perhaps the last, which is
      one or two, and together they spell the input. */
  lemma {:induction false} SplitEveryTwoConcat(data: string)
    ensures var chunks := SplitEveryTwo(data);
            && Concat(chunks) == data
            && (forall k :: 0 <= k < |chunks| - 1 ==> |chunks[k]| == 2)
            && (|chunks| > 0 ==> 1 <= |chunks[|chunks| - 1]| <= 2)
    decreases |data|
  {
    if |data| > 2 {
      SplitEveryTwoConcat(data[2..]);
      assert data[..2] + data[2..] == data;
    }
  }

  // ---------------------------------------------------------------------
  // Cells and blocks

  /** A disk cell: part of the file with the given id, or free (`.`). */
  datatype Cell = File(id: nat) | Free

  type FileSystem = seq<Cell>

  /** A run of `size` cells with the same content (challenge 2's `Block`). */
  datatype Block = Block(content: Cell, size: nat)

  /** Every chunk is one or two decimal digits: a file length, then
      optionally a free-space length. */
  predicate Described(chunks: seq<string>)
  {
    forall k :: 0 <= k < |chunks| ==> 1 <= |chunks[k]| <= 2 && IsDigits(chunks[k])
  }

  lemma DigitsDescribed(data: string)
    requires IsDigits(data)
    ensures Described(SplitEveryTwo(data))
  {
    forall k | 0 <= k < |SplitEveryTwo(data)|
      ensures 1 <= |SplitEveryTwo(data)[k]| <= 2 && IsDigits(SplitEveryTwo(data)[k])
    {
      ChunkAt(data, k);
    }
  }

  function Run(c: Cell, n: nat): (cells: FileSystem)
    ensures |cells| == n && forall k :: 0 <= k < n ==> cells[k] == c
  {
    seq(n, _ => c)
  }

  /** expandInput of challenge 1: file `k` takes as many cells as the first
      digit of chunk `k`, followed by as many free cells as its second digit,
      if there is one. */
  function ExpandInput(chunks: seq<string>): FileSystem
    requires Described(chunks)
  {
    if |chunks| == 0 then []
    else
      var n := |chunks| - 1;
      var c := chunks[n];
      ExpandInput(chunks[..n]) + Run(File(n), DigitValue(c[0]))
        + (if |c| == 2 then Run(Free, DigitValue(c[1])) else [])
  }

  /** createBlocks: the same layout as blocks, one per digit; a free-space
      digit `0` still makes a block, of size 0. */
  function CreateBlocks(chunks: seq<string>): seq<Block>
    requires Described(chunks)
  {
    if |chunks| == 0 then []
    else
      var n := |chunks| - 1;
      var c := chunks[n];
      CreateBlocks(chunks[..n]) + [Block(File(n), DigitValue(c[0]))]
        + (if |c| == 2 then [Block(Free, DigitValue(c[1]))] else [])
  }

  /** expandInput of challenge 2: each block becomes `size` cells. */
  function ExpandBlocks(blocks: seq<Block>): FileSystem
  {
    if |blocks| == 0 then []
    else
      var n := |blocks| - 1;
      ExpandBlocks(blocks[..n]) + Run(blocks[n].content, blocks[n].size)
  }

  /** The block of digit `m`: even positions are file `m / 2`, odd positions
      free space. */
  function DigitBlock(data: string, m: nat): Block
    requires m < |data| && IsDigit(data[m])
  {
    Block(if m % 2 == 0 then File(m / 2) else Free, DigitValue(data[m]))
  }

  /** One block per digit of the disk map, alternating file and free
      space, file ids counting up from 0. */
  lemma CreateBlocksOfDigits(data: string)
    requires IsDigits(data)
    ensures Described(SplitEveryTwo(data))
    ensures var blocks := CreateBlocks(SplitEveryTwo(data));
            && |blocks| == |data|
            && forall m :: 0 <= m < |data| ==> blocks[m] == DigitBlock(data, m)
  {
    var chunks := SplitEveryTwo(data);
    DigitsDescribed(data);
    assert chunks[..|chunks|] == chunks;
    CreateBlocksPrefixLength(data, |chunks|);
    forall m | 0 <= m < |data|
      ensures CreateBlocks(chunks)[m] == DigitBlock(data, m)
    {
      CreateBlocksPrefixAt(data, |chunks|, m);
    }
  }

  lemma {:induction false} CreateBlocksPrefixLength(data: string, n: nat)
    requires IsDigits(data) && n <= |SplitEveryTwo(data)|
    ensures Described(SplitEveryTwo(data)[..n])
    ensures |CreateBlocks(SplitEveryTwo(data)[..n])| == Min(2 * n, |data|)
  {
    var chunks := SplitEveryTwo(data);
    DigitsDescribed(data);
    if n > 0 {
      CreateBlocksPrefixLength(data, n - 1);
      assert chunks[..n][..n - 1] == chunks[..n - 1];
      ChunkAt(data, n - 1);
    }
  }

  lemma {:induction false} CreateBlocksPrefixAt(data: string, n: nat, m: nat)
    requires IsDigits(data) && n <= |SplitEveryTwo(data)| && m < Min(2 * n, |data|)
    ensures Described(SplitEveryTwo(data)[..n])
    ensures m < |CreateBlocks(SplitEveryTwo(data)[..n])|
    ensures CreateBlocks(SplitEveryTwo(data)[..n])[m] == DigitBlock(data, m)
  {
    var chunks := SplitEveryTwo(data);
    DigitsDescribed(data);
    CreateBlocksPrefixLength(data, n);
    CreateBlocksPrefixLength(data, n - 1);
    assert chunks[..n][..n - 1] == chunks[..n - 1];
    if m < 2 * (n - 1) {
      CreateBlocksPrefixAt(data, n - 1, m);
    } else {
      ChunkAt(data, n - 1);
      var c := chunks[n - 1];
      assert c[0] == data[2 * (n - 1)];
      if m == 2 * n - 1 {
        assert c[1] == data[m];
      }
    }
  }

  /** Challenge 1's cells are challenge 2's blocks expanded. */
  lemma {:induction false} ExpandInputIsExpandBlocks(chunks: seq<string>)
    requires Described(chunks)
    ensures ExpandInput(chunks) == ExpandBlocks(CreateBlocks(chunks))
  {
    if |chunks| > 0 {
      var n := |chunks| - 1;
      var c := chunks[n];
      ExpandInputIsExpandBlocks(chunks[..n]);
      var pre := CreateBlocks(chunks[..n]);
      var file := Block(File(n), DigitValue(c[0]));
      if |c| == 2 {
        var free := Block(Free, DigitValue(c[1]));
        assert (pre + [file] + [free])[..|pre| + 1] == pre + [file];
        assert (pre + [file])[..|pre|] == pre;
      } else {
        assert (pre + [file] + [])[..|pre|] == pre;
      }
    }
  }

  // ---------------------------------------------------------------------
  // Sizes and the file-block multiset

  /** A sum of per-block weights. */
  function SumBy(blocks: seq<Block>, w: Block -> nat): nat
  {
    if |blocks| == 0 then 0 else SumBy(blocks[..|blocks| - 1], w) + w(blocks[|blocks| - 1])
  }

  lemma {:induction false} SumByAppend(a: seq<Block>, b: seq<Block>, w: Block -> nat)
    ensures SumBy(a + b, w) == SumBy(a, w) + SumBy(b, w)
    decreases |b|
  {
    if |b| == 0 {
      assert a + b == a;
    } else {
      assert (a + b)[..|a + b| - 1] == a + b[..|b| - 1];
      SumByAppend(a, b[..|b| - 1], w);
    }
  }

  lemma {:induction false} SumByPrefix(blocks: seq<Block>, n: nat, w: Block -> nat)
    requires n <= |blocks|
    ensures SumBy(blocks[..n], w) <= SumBy(blocks, w)
  {
    assert blocks == blocks[..n] + blocks[n..];
    SumByAppend(blocks[..n], blocks[n..], w);
  }

  function SizeOf(b: Block): nat
  {
    b.size
  }

  function FreeSizeOf(b: Block): nat
  {
    if b.content == Free then b.size else 0
  }

  function SizeSum(blocks: seq<Block>): nat
  {
    SumBy(blocks, SizeOf)
  }

  function FreeSize(blocks: seq<Block>): nat
  {
    SumBy(blocks, FreeSizeOf)
  }

  /** The file blocks, counted with multiplicity. */
  function FileBlocks(blocks: seq<Block>): multiset<Block>
  {
    if |blocks| == 0 then multiset{}
    else
      var b := blocks[|blocks| - 1];
      FileBlocks(blocks[..|blocks| - 1]) + if b.content.File? then multiset{b} else multiset{}
  }

  lemma {:induction false} FileBlocksAppend(a: seq<Block>, b: seq<Block>)
    ensures FileBlocks(a + b) == FileBlocks(a) + FileBlocks(b)
    decreases |b|
  {
    if |b| == 0 {
      assert a + b == a;
    } else {
      assert (a + b)[..|a + b| - 1] == a + b[..|b| - 1];
      FileBlocksAppend(a, b[..|b| - 1]);
    }
  }

  lemma {:induction false} ExpandBlocksLength(blocks: seq<Block>)
    ensures |ExpandBlocks(blocks)| == SizeSum(blocks)
  {
    if |blocks| > 0 {
      ExpandBlocksLength(blocks[..|blocks| - 1]);
    }
  }

  /** Block `m` fills the `size` cells that follow the blocks before it. */
  lemma {:induction false} ExpandBlocksAt(blocks: seq<Block>, m: nat, t: nat)
    requires m < |blocks| && t < blocks[m].size
    ensures SizeSum(blocks[..m]) + t < |ExpandBlocks(blocks)|
    ensures ExpandBlocks(blocks)[SizeSum(blocks[..m]) + t] == blocks[m].content
  {
    var n := |blocks| - 1;
    ExpandBlocksLength(blocks);
    ExpandBlocksLength(blocks[..n]);
    if m < n {
      ExpandBlocksAt(blocks[..n], m, t);
      assert blocks[..n][..m] == blocks[..m];
    } else {
      assert blocks[..m] == blocks[..n];
    }
  }

  /** File `k` with the length its chunk gives it, for every chunk. */
  function FileSizes(chunks: seq<string>): multiset<Block>
    requires Described(chunks)
  {
    if |chunks| == 0 then multiset{}
    else
      var n := |chunks| - 1;
      FileSizes(chunks[..n]) + multiset{Block(File(n), DigitValue(chunks[n][0]))}
  }

  lemma {:induction false} CreateBlocksFiles(chunks: seq<string>)
    requires Described(chunks)
    ensures FileBlocks(CreateBlocks(chunks)) == FileSizes(chunks)
  {
    if |chunks| > 0 {
      var n := |chunks| - 1;
      var c := chunks[n];
      CreateBlocksFiles(chunks[..n]);
      var pre := CreateBlocks(chunks[..n]);
      var file := Block(File(n), DigitValue(c[0]));
      var tail := if |c| == 2 then [Block(Free, DigitValue(c[1]))] else [];
      FileBlocksAppend(pre + [file], tail);
      FileBlocksAppend(pre, [file]);
      assert [file][..0] == [];
      if |c| == 2 {
        assert tail[..0] == [];
      }
    }
  }

  /** Every file appears as exactly one block, with the length its chunk
      gives it, and nothing else is a file block. */
  lemma {:induction false} FileSizesOnce(chunks: seq<string>, x: Block)
    requires Described(chunks)
    ensures FileSizes(chunks)[x] ==
              if x.content.File? && x.content.id < |chunks| && x.size == DigitValue(chunks[x.content.id][0]) then 1 else 0
  {
    if |chunks| > 0 {
      var n := |chunks| - 1;
      FileSizesOnce(chunks[..n], x);
      if x.content.File? && x.content.id < n {
        assert chunks[..n][x.content.id] == chunks[x.content.id];
      }
    }
  }

  // ---------------------------------------------------------------------
  // computeChecksum

  function Weight(c: Cell, index: nat): nat
  {
    match c
    case Free => 0
    case File(id) => id * index
  }

  /** The sum of position times file id over the file cells. */
  function Checksum(fs: FileSystem): nat
  {
    if |fs| == 0 then 0 else Checksum(fs[..|fs| - 1]) + Weight(fs[|fs| - 1], |fs| - 1)
  }

  lemma {:induction false} ChecksumAllFree(fs: FileSystem)
    requires forall k :: 0 <= k < |fs| ==> fs[k] == Free
    ensures Checksum(fs) == 0
  {
    if |fs| > 0 {
      ChecksumAllFree(fs[..|fs| - 1]);
    }
  }

  /** Changing one cell changes the checksum by that cell's weight only. */
  lemma {:induction false} ChecksumUpdate(fs: FileSystem, k: nat, c: Cell)
    requires k < |fs|
    ensures Checksum(fs[k := c]) + Weight(fs[k], k) == Checksum(fs) + Weight(c, k)
  {
    var n := |fs| - 1;
    if k < n {
      ChecksumUpdate(fs[..n], k, c);
      assert fs[k := c][..n] == fs[..n][k := c];
    } else {
      assert fs[k := c][..n] == fs[..n];
    }
  }

  // ---------------------------------------------------------------------
  // The layout of challenge 1's cells

  function DigitSum(s: string): nat
    requires IsDigits(s)
  {
    if |s| == 0 then 0 else DigitSum(s[..|s| - 1]) + DigitValue(s[|s| - 1])
  }

  lemma {:induction false} SizeSumOfDigits(data: string, blocks: seq<Block>)
    requires IsDigits(data) && |blocks| == |data|
    requires forall m :: 0 <= m < |data| ==> blocks[m] == DigitBlock(data, m)
    ensures SizeSum(blocks) == DigitSum(data)
  {
    if |data| > 0 {
      var n := |data| - 1;
      SizeSumOfDigits(data[..n], blocks[..n]);
    }
  }

  /** expandInput of challenge 1 makes as many cells as the digits of the
      disk map add up to. */
  lemma ExpandInputLength(data: string)
    requires IsDigits(data)
    ensures Described(SplitEveryTwo(data))
    ensures |ExpandInput(SplitEveryTwo(data))| == DigitSum(data)
  {
    var chunks := SplitEveryTwo(data);
    CreateBlocksOfDigits(data);
    ExpandInputIsExpandBlocks(chunks);
    ExpandBlocksLength(CreateBlocks(chunks));
    SizeSumOfDigits(data, CreateBlocks(chunks));
  }

  /** expandInput of challenge 1: the cells of digit `m` of the disk map
      start after the cells of the digits before it; they belong to file
      `m / 2` for even `m` and are free for odd `m`. */
  lemma ExpandInputLayout(data: string, m: nat, t: nat)
    requires IsDigits(data) && m < |data| && t < DigitValue(data[m])
    ensures Described(SplitEveryTwo(data))
    ensures DigitSum(data[..m]) + t < |ExpandInput(SplitEveryTwo(data))|
    ensures ExpandInput(SplitEveryTwo(data))[DigitSum(data[..m]) + t] == if m % 2 == 0 then File(m / 2) else Free
  {
    var chunks := SplitEveryTwo(data);
    CreateBlocksOfDigits(data);
    var blocks := CreateBlocks(chunks);
    ExpandInputIsExpandBlocks(chunks);
    ExpandBlocksAt(blocks, m, t);
    SizeSumOfDigits(data[..m], blocks[..m]);
  }

  // ---------------------------------------------------------------------
  // Challenge 1: moving single cells

  /** `fileSystem.indexOf(".")`: the first free cell, or -1. */
  function FirstFree(fs: FileSystem): (k: int)
    ensures -1 <= k < |fs|
    ensures k >= 0 ==> fs[k] == Free && forall j :: 0 <= j < k ==> fs[j].File?
    ensures k == -1 <==> Free !in fs
  {
    if |fs| == 0 then -1
    else if fs[0] == Free then 0
    else
      var k := FirstFree(fs[1..]);
      assert forall j :: 1 <= j < |fs| ==> fs[j] == fs[1..][j - 1];
      if k < 0 then -1 else k + 1
  }

  /** The last file cell, if any. */
  function LastFile(fs: FileSystem): (r: Option<nat>)
    ensures r.Some? ==> r.value < |fs| && fs[r.value].File? && forall j :: r.value < j < |fs| ==> fs[j] == Free
    ensures r.None? ==> forall j :: 0 <= j < |fs| ==> fs[j] == Free
  {
    if |fs| == 0 then None
    else if fs[|fs| - 1].File? then Some(|fs| - 1)
    else LastFile(fs[..|fs| - 1])
  }

  /** Where `fileSystem.slice(k)` starts: a negative `k` counts from the
      end. */
  function SliceStart(fs: FileSystem, k: int): nat
    requires k <= |fs|
  {
    if k >= 0 then k else if |fs| + k >= 0 then |fs| + k else 0
  }

  /** `fileSystem.slice(k).some((v) => v !== ".")`. */
  predicate FilesFrom(fs: FileSystem, k: int)
    requires k <= |fs|
  {
    exists j :: SliceStart(fs, k) <= j < |fs| && fs[j].File?
  }

  /** moveLastBlockToFreeSpace: the last file cell is freed and its content
      written at `free`; with nothing but free cells it throws (`None`). An
      index of -1 is not an array element, so that write is lost. */
  function MoveLastBlockToFreeSpace(fs: FileSystem, free: int): (r: Option<FileSystem>)
    requires -1 <= free < |fs|
    ensures r.None? <==> forall j :: 0 <= j < |fs| ==> fs[j] == Free
    ensures r.Some? ==>
              var i := LastFile(fs).value;
              && |r.value| == |fs|
              && (free >= 0 ==> r.value[free] == fs[i])
              && (free != i ==> r.value[i] == Free)
              && forall j :: 0 <= j < |fs| && j != i && j != free ==> r.value[j] == fs[j]
  {
    match LastFile(fs)
    case None => None
    case Some(i) =>
      var freed := fs[i := Free];
      Some(if free >= 0 then freed[free := fs[i]] else freed)
  }

  /** Moving into a free cell keeps the cells, and the first free cell
      moves right. */
  lemma MoveIntoFree(fs: FileSystem, free: int)
    requires free >= 0 && free == FirstFree(fs) && FilesFrom(fs, free)
    ensures MoveLastBlockToFreeSpace(fs, free).Some?
    ensures var r := MoveLastBlockToFreeSpace(fs, free).value;
            && multiset(r) == multiset(fs)
            && FirstFree(r) > free
  {
    var j :| free <= j < |fs| && fs[j].File?;
    var i := LastFile(fs).value;
    assert i >= j > free;
    SwapIntoFree(fs, i, free);
  }

  lemma SwapIntoFree(fs: FileSystem, i: nat, free: nat)
    requires free < i < |fs| && fs[free] == Free && fs[i].File?
    requires forall k :: 0 <= k < free ==> fs[k].File?
    ensures var r := fs[i := Free][free := fs[i]];
            && multiset(r) == multiset(fs)
            && FirstFree(r) > free
  {
    var freed := fs[i := Free];
    var r := freed[free := fs[i]];
    assert multiset(freed) == multiset(fs) - multiset{fs[i]} + multiset{Free};
    assert multiset(r) == multiset(freed) - multiset{Free} + multiset{fs[i]};
    assert r[i] == Free;
    assert Free in r;
    assert forall k :: 0 <= k <= free ==> r[k].File?;
  }

  /** With no free cell the move to index -1 frees the last cell and loses
      its file. */
  lemma MoveWithoutFree(fs: FileSystem)
    requires |fs| > 0 && Free !in fs
    ensures MoveLastBlockToFreeSpace(fs, -1) == Some(fs[|fs| - 1 := Free])
    ensures FirstFree(fs[|fs| - 1 := Free]) == |fs| - 1
  {
    assert fs[|fs| - 1].File?;
  }

  /** No file cell after a free cell. */
  predicate Compacted(fs: FileSystem)
  {
    forall j, k :: 0 <= j < k < |fs| && fs[j] == Free ==> fs[k] == Free
  }

  lemma CompactedStops(fs: FileSystem)
    ensures Compacted(fs) && Free in fs ==> !FilesFrom(fs, FirstFree(fs))
  {
  }

  /** condenseFileSystem as written. With a free cell somewhere it moves
      file cells into the first free cell until none follows it: the result
      is a permutation of the cells with no file after a free cell, and an
      already compacted disk is left alone. With no free cell, `indexOf`
      gives -1, `slice(-1)` sees the last cell, and that file is lost. */
  method CondenseAsWritten(fs: FileSystem) returns (r: FileSystem)
    ensures |r| == |fs|
    ensures Free in fs ==> multiset(r) == multiset(fs) && Compacted(r)
    ensures Free in fs && Compacted(fs) ==> r == fs
    ensures Free !in fs && |fs| > 0 ==> r == fs[|fs| - 1 := Free]
  {
    r := fs;
    var first := FirstFree(r);
    while FilesFrom(r, first)
      invariant |r| == |fs| && first == FirstFree(r)
      invariant Free in fs ==> first >= 0 && multiset(r) == multiset(fs)
      invariant Free in fs && Compacted(fs) ==> r == fs
      invariant Free !in fs ==> (r == fs && first == -1) || (|fs| > 0 && r == fs[|fs| - 1 := Free] && first == |fs| - 1)
      decreases |r| - first
    {
      CompactedStops(r);
      if first >= 0 {
        MoveIntoFree(r, first);
      } else {
        MoveWithoutFree(r);
      }
      r := MoveLastBlockToFreeSpace(r, first).value;
      first := FirstFree(r);
    }
  }

  /** condenseFileSystem with the no-free-space case guarded: the result is
      a permutation of the cells with no file after a free cell, and a
      compacted disk is left alone. */
  method CondenseFileSystem(fs: FileSystem) returns (r: FileSystem)
    ensures |r| == |fs| && multiset(r) == multiset(fs) && Compacted(r)
    ensures Compacted(fs) ==> r == fs
  {
    if Free !in fs {
      return fs;
    }
    r := CondenseAsWritten(fs);
  }

  /** The file lost on a disk without free space takes its weight out of
      the checksum: the map "1010" expands to files 0 and 1 with checksum 1,
      and condensing it as written leaves checksum 0. */
  lemma FullDiskLosesLastFile(fs: FileSystem)
    requires |fs| > 0 && Free !in fs
    ensures multiset(fs[|fs| - 1 := Free]) != multiset(fs)
    ensures Checksum(fs[|fs| - 1 := Free]) + Weight(fs[|fs| - 1], |fs| - 1) == Checksum(fs)
    ensures fs == [File(0), File(1)] ==> Checksum(fs) == 1 && Checksum(fs[|fs| - 1 := Free]) == 0
  {
    var n := |fs| - 1;
    assert multiset(fs[n := Free])[Free] == 1;
    assert multiset(fs)[Free] == 0;
    ChecksumUpdate(fs, n, Free);
    if fs == [File(0), File(1)] {
      assert fs[..1][..0] == [];
      assert Checksum(fs[..1]) == 0;
      assert fs[1 := Free][..1] == fs[..1];
    }
  }

  // ---------------------------------------------------------------------
  // Challenge 2: moving whole files

  predicate Fits(b: Block, size: nat)
  {
    b.content == Free && b.size >= size
  }

  /** `findIndex` of the first free block with room for `size` cells. */
  function FindFit(blocks: seq<Block>, size: nat): (r: Option<nat>)
    ensures r.Some? ==> r.value < |blocks| && Fits(blocks[r.value], size)
                        && forall k :: 0 <= k < r.value ==> !Fits(blocks[k], size)
    ensures r.None? ==> forall k :: 0 <= k < |blocks| ==> !Fits(blocks[k], size)
  {
    if |blocks| == 0 then None
    else if Fits(blocks[0], size) then Some(0)
    else
      match FindFit(blocks[1..], size)
      case None => None
      case Some(k) => Some(k + 1)
  }

  /** One pass of defragBlocks' loop at index `i`. A file block moves into
      the first free block before it with room for it; its old place
      becomes free space of its size, and what the free block had left over
      becomes a new free block right after the file. A free block, or a file
      with no room before it, changes nothing. */
  function MoveFile(blocks: seq<Block>, i: nat): (r: seq<Block>)
    requires i < |blocks|
    ensures |r| == |blocks| || |r| == |blocks| + 1
  {
    var b := blocks[i];
    if b.content == Free then blocks
    else
      match FindFit(blocks[..i], b.size)
      case None => blocks
      case Some(j) => Moved(blocks, j, i)
  }

  /** Where a pass puts things: a free block, or a file with no room
      before it, changes nothing; otherwise the file lands in the first free
      block before it with room, its old place becomes free space of its
      size, and a non-zero leftover becomes a free block right after the
      file, the only case where a block is added. */
  lemma MoveFileTarget(blocks: seq<Block>, i: nat)
    requires i < |blocks|
    ensures var r := MoveFile(blocks, i);
            blocks[i].content == Free || FindFit(blocks[..i], blocks[i].size).None? ==> r == blocks
    ensures var r := MoveFile(blocks, i);
            blocks[i].content.File? && FindFit(blocks[..i], blocks[i].size).Some? ==>
              var j := FindFit(blocks[..i], blocks[i].size).value;
              var leftover := blocks[j].size - blocks[i].size;
              && j < i && r[..j] == blocks[..j] && r[j] == blocks[i]
              && (leftover > 0 <==> |r| == |blocks| + 1)
              && (leftover > 0 ==> r[j + 1] == Block(Free, leftover) && r[i + 1] == Block(Free, blocks[i].size))
              && (leftover == 0 ==> r[i] == Block(Free, blocks[i].size))
  {
    var b := blocks[i];
    if b.content.File? && FindFit(blocks[..i], b.size).Some? {
      var j := FindFit(blocks[..i], b.size).value;
      assert MoveFile(blocks, i) == Moved(blocks, j, i);
    }
  }

  /** The blocks after file `i` has moved into free block `j`. */
  function Moved(blocks: seq<Block>, j: nat, i: nat): seq<Block>
    requires j < i < |blocks| && blocks[j].size >= blocks[i].size
  {
    blocks[..j] + Filled(blocks[j], blocks[i]) + blocks[j + 1..i] + [Block(Free, blocks[i].size)] + blocks[i + 1..]
  }

  /** A free block with a file written into it: the file, then the free
      space left over, if any. */
  function Filled(free: Block, file: Block): seq<Block>
    requires free.size >= file.size
  {
    var leftover := free.size - file.size;
    [file] + if leftover > 0 then [Block(Free, leftover)] else []
  }

  /** The cut of `blocks` around the free block `j` and the file `i`. */
  lemma SplitAround(blocks: seq<Block>, j: nat, i: nat)
    requires j < i < |blocks|
    ensures blocks == blocks[..j] + [blocks[j]] + blocks[j + 1..i] + [blocks[i]] + blocks[i + 1..]
  {
  }

  /** A move keeps the total size and the file blocks. */
  lemma MoveFileKeeps(blocks: seq<Block>, i: nat)
    requires i < |blocks|
    ensures SizeSum(MoveFile(blocks, i)) == SizeSum(blocks)
    ensures FileBlocks(MoveFile(blocks, i)) == FileBlocks(blocks)
  {
    var b := blocks[i];
    if b.content.File? && FindFit(blocks[..i], b.size).Some? {
      var j := FindFit(blocks[..i], b.size).value;
      assert MoveFile(blocks, i) == Moved(blocks, j, i);
      MovedKeeps(blocks, j, i);
    }
  }

  lemma MovedKeeps(blocks: seq<Block>, j: nat, i: nat)
    requires j < i < |blocks| && blocks[j].size >= blocks[i].size
    requires blocks[j].content == Free && blocks[i].content.File?
    ensures SizeSum(Moved(blocks, j, i)) == SizeSum(blocks)
    ensures FileBlocks(Moved(blocks, j, i)) == FileBlocks(blocks)
  {
    MovedKeepsSize(blocks, j, i);
    MovedKeepsFiles(blocks, j, i);
  }

  lemma MovedKeepsSize(blocks: seq<Block>, j: nat, i: nat)
    requires j < i < |blocks| && blocks[j].size >= blocks[i].size
    requires blocks[j].content == Free && blocks[i].content.File?
    ensures SizeSum(Moved(blocks, j, i)) == SizeSum(blocks)
  {
    var b := blocks[i];
    var pre, mid, post := blocks[..j], blocks[j + 1..i], blocks[i + 1..];
    SplitAround(blocks, j, i);
    SumByFive(pre, [blocks[j]], mid, [b], post, SizeOf);
    SumByFive(pre, Filled(blocks[j], b), mid, [Block(Free, b.size)], post, SizeOf);
    FilledSums(blocks[j], b);
    Singleton(blocks[j]);
    Singleton(b);
    Singleton(Block(Free, b.size));
  }

  lemma MovedKeepsFiles(blocks: seq<Block>, j: nat, i: nat)
    requires j < i < |blocks| && blocks[j].size >= blocks[i].size
    requires blocks[j].content == Free && blocks[i].content.File?
    ensures FileBlocks(Moved(blocks, j, i)) == FileBlocks(blocks)
  {
    var b := blocks[i];
    var pre, mid, post := blocks[..j], blocks[j + 1..i], blocks[i + 1..];
    SplitAround(blocks, j, i);
    FileBlocksFive(pre, [blocks[j]], mid, [b], post);
    FileBlocksFive(pre, Filled(blocks[j], b), mid, [Block(Free, b.size)], post);
    FilledSums(blocks[j], b);
    Singleton(blocks[j]);
    Singleton(b);
    Singleton(Block(Free, b.size));
  }

  lemma FilledSums(free: Block, file: Block)
    requires free.size >= file.size && free.content == Free && file.content.File?
    ensures SizeSum(Filled(free, file)) == free.size
    ensures FreeSize(Filled(free, file)) == free.size - file.size
    ensures FileBlocks(Filled(free, file)) == multiset{file}
  {
    var extra := if free.size > file.size then [Block(Free, free.size - file.size)] else [];
    assert Filled(free, file) == [file] + extra;
    SumsOfTwo(file, extra);
    Singleton(file);
    if |extra| == 1 {
      Singleton(extra[0]);
    }
  }

  lemma Singleton(x: Block)
    ensures SizeSum([x]) == x.size && FreeSize([x]) == FreeSizeOf(x)
    ensures FileBlocks([x]) == if x.content.File? then multiset{x} else multiset{}
  {
    assert [x][..0] == [];
    assert SumBy([x], SizeOf) == SumBy([], SizeOf) + SizeOf(x);
    assert SumBy([x], FreeSizeOf) == SumBy([], FreeSizeOf) + FreeSizeOf(x);
  }

  lemma SumsOfTwo(x: Block, extra: seq<Block>)
    requires |extra| <= 1 && forall k :: 0 <= k < |extra| ==> extra[k].content == Free
    ensures SizeSum([x] + extra) == x.size + SizeSum(extra)
    ensures FreeSize([x] + extra) == FreeSizeOf(x) + FreeSize(extra)
    ensures FileBlocks([x] + extra) == FileBlocks([x])
  {
    SumByAppend([x], extra, SizeOf);
    SumByAppend([x], extra, FreeSizeOf);
    FileBlocksAppend([x], extra);
    Singleton(x);
    if |extra| == 1 {
      Singleton(extra[0]);
      assert extra == [extra[0]];
    }
  }

  lemma SumByFive(a: seq<Block>, b: seq<Block>, c: seq<Block>, d: seq<Block>, e: seq<Block>, w: Block -> nat)
    ensures SumBy(a + b + c + d + e, w) == SumBy(a, w) + SumBy(b, w) + SumBy(c, w) + SumBy(d, w) + SumBy(e, w)
  {
    SumByAppend(a, b, w);
    SumByAppend(a + b, c, w);
    SumByAppend(a + b + c, d, w);
    SumByAppend(a + b + c + d, e, w);
  }

  lemma FileBlocksFive(a: seq<Block>, b: seq<Block>, c: seq<Block>, d: seq<Block>, e: seq<Block>)
    ensures FileBlocks(a + b + c + d + e) == FileBlocks(a) + FileBlocks(b) + FileBlocks(c) + FileBlocks(d) + FileBlocks(e)
  {
    FileBlocksAppend(a, b);
    FileBlocksAppend(a + b, c);
    FileBlocksAppend(a + b + c, d);
    FileBlocksAppend(a + b + c + d, e);
  }

  // ---------------------------------------------------------------------
  // defragBlocks

  /** The free space in the blocks before index `i`. */
  function FreeBefore(blocks: seq<Block>, i: int): nat
    requires i <= |blocks|
  {
    if i <= 0 then 0 else FreeSize(blocks[..i])
  }

  /** The index of the first free block, or the length if there is none. */
  function FirstFreeBlock(blocks: seq<Block>): (k: nat)
    ensures k <= |blocks|
    ensures k < |blocks| ==> blocks[k].content == Free
    ensures forall j :: 0 <= j < k ==> blocks[j].content.File?
  {
    if |blocks| == 0 || blocks[0].content == Free then 0
    else
      assert forall j :: 1 <= j < |blocks| ==> blocks[j] == blocks[1..][j - 1];
      1 + FirstFreeBlock(blocks[1..])
  }

  lemma FreeBeforeMono(blocks: seq<Block>, n: int, m: int)
    requires n <= m <= |blocks|
    ensures FreeBefore(blocks, n) <= FreeBefore(blocks, m)
  {
    if n > 0 {
      SumByPrefix(blocks[..m], n, FreeSizeOf);
      assert blocks[..m][..n] == blocks[..n];
    }
  }

  /** A move never adds free space before the loop index, and takes away
      the moved file's size. When a zero-size file moves, the first free
      block is the one it fills, and the leftover becomes the first free
      block one further on. */
  lemma MovedProgress(blocks: seq<Block>, j: nat, i: nat)
    requires j < i < |blocks| && blocks[j].size >= blocks[i].size
    requires blocks[j].content == Free && blocks[i].content.File?
    requires forall k :: 0 <= k < j ==> !Fits(blocks[k], blocks[i].size)
    ensures var r := Moved(blocks, j, i);
            var f := blocks[i].size;
            && (blocks[j].size == f ==> |r| == |blocks| && FreeBefore(r, i - 1) <= FreeBefore(blocks, i))
            && (blocks[j].size > f ==> |r| == |blocks| + 1 && FreeBefore(r, i) + f <= FreeBefore(blocks, i))
            && (blocks[j].size > f && f == 0 ==> FirstFreeBlock(blocks) == j && FirstFreeBlock(r) == j + 1)
  {
    var b := blocks[i];
    var r := Moved(blocks, j, i);
    var x := blocks[..j] + Filled(blocks[j], b) + blocks[j + 1..i];
    assert r == x + [Block(Free, b.size)] + blocks[i + 1..];
    MovedFreeBefore(blocks, j, i);
    if blocks[j].size == b.size {
      assert r[..i] == x;
      FreeBeforeMono(r, i - 1, i);
    } else {
      assert r[..i] == x[..i];
      SumByPrefix(x, i, FreeSizeOf);
      if b.size == 0 {
        FirstFreeAt(blocks, j);
        assert r[j + 1] == Block(Free, blocks[j].size);
        FirstFreeAt(r, j + 1);
      }
    }
  }

  /** Filling the free block takes the file's size out of the free space
      before the file. */
  lemma MovedFreeBefore(blocks: seq<Block>, j: nat, i: nat)
    requires j < i < |blocks| && blocks[j].size >= blocks[i].size
    requires blocks[j].content == Free && blocks[i].content.File?
    ensures FreeSize(blocks[..j] + Filled(blocks[j], blocks[i]) + blocks[j + 1..i]) + blocks[i].size
            == FreeBefore(blocks, i)
  {
    var b := blocks[i];
    var pre, mid := blocks[..j], blocks[j + 1..i];
    assert blocks[..i] == pre + [blocks[j]] + mid;
    SumByAppend(pre, [blocks[j]], FreeSizeOf);
    SumByAppend(pre + [blocks[j]], mid, FreeSizeOf);
    SumByAppend(pre, Filled(blocks[j], b), FreeSizeOf);
    SumByAppend(pre + Filled(blocks[j], b), mid, FreeSizeOf);
    Singleton(blocks[j]);
    FilledSums(blocks[j], b);
  }

  lemma FirstFreeAt(blocks: seq<Block>, k: nat)
    requires k < |blocks| && blocks[k].content == Free
    requires forall j :: 0 <= j < k ==> blocks[j].content.File?
    ensures FirstFreeBlock(blocks) == k
  {
    var f := FirstFreeBlock(blocks);
    assert f <= k;
  }

  /** The measure of defragBlocks' loop goes down at every pass: either the
      free space before the index shrinks, or the index does, or (a
      zero-size file moving) the first free block moves towards it. */
  lemma DefragProgress(blocks: seq<Block>, i: nat)
    requires i < |blocks|
    ensures var r := MoveFile(blocks, i);
            var next := if |r| > |blocks| then i else i - 1;
            && -1 <= next < |r|
            && (FreeBefore(r, next) < FreeBefore(blocks, i)
                || (FreeBefore(r, next) == FreeBefore(blocks, i) && next < i)
                || (FreeBefore(r, next) == FreeBefore(blocks, i) && next == i
                    && 0 <= i - FirstFreeBlock(blocks) && next - FirstFreeBlock(r) < i - FirstFreeBlock(blocks)))
  {
    var b := blocks[i];
    if b.content.File? && FindFit(blocks[..i], b.size).Some? {
      var j := FindFit(blocks[..i], b.size).value;
      assert MoveFile(blocks, i) == Moved(blocks, j, i);
      assert forall k :: 0 <= k < j ==> blocks[k] == blocks[..i][k];
      MovedProgress(blocks, j, i);
    } else {
      FreeBeforeMono(blocks, i - 1, i);
    }
  }

  /** defragBlocks: from the last block down, each file moves into the
      first free block before it with room for it. The total size and the
      file blocks, each with its size, are kept, so the expanded disk has
      the same length. */
  method DefragBlocks(blocks: seq<Block>) returns (r: seq<Block>)
    ensures SizeSum(r) == SizeSum(blocks)
    ensures FileBlocks(r) == FileBlocks(blocks)
    ensures |ExpandBlocks(r)| == |ExpandBlocks(blocks)|
  {
    r := blocks;
    var i: int := |r| - 1;
    while i >= 0
      invariant -1 <= i < |r|
      invariant SizeSum(r) == SizeSum(blocks) && FileBlocks(r) == FileBlocks(blocks)
      decreases FreeBefore(r, i), i, i - FirstFreeBlock(r)
    {
      var next := MoveFile(r, i);
      DefragProgress(r, i);
      MoveFileKeeps(r, i);
      if |next| > |r| {
        i := i + 1;
      }
      r := next;
      i := i - 1;
    }
    ExpandBlocksLength(r);
    ExpandBlocksLength(blocks);
  }
}
