/** Day 9: a dense disk map expands into file and free blocks; compaction
    moves the last file block into the first free slot until no free slot
    precedes a file block; the checksum weighs each file id by its position
    (day09/src/lib.rs). */
module Day09 {
  import opened Wrappers
  import opened Text

  datatype Block = File(id: nat) | Free

  /** The file system: its blocks, the index `compaction` takes the next
      block from, and the queue of indices to fill. */
  datatype FileSystem = FileSystem(blocks: seq<Block>, lastFileBlock: nat, freeBlocks: seq<nat>)

  datatype FragmentError = OutOfFuel | NoFileBlockLeft

  function Repeat(b: Block, n: nat): (r: seq<Block>)
    ensures |r| == n && forall i | 0 <= i < n :: r[i] == b
  {
    seq(n, _ => b)
  }

  function Sum(ds: seq<nat>): nat {
    if |ds| == 0 then 0 else ds[0] + Sum(ds[1..])
  }

  /** `s.chars().filter_map(|c| c.to_digit(10))`: the values of the decimal
      digits of `s`, in order; everything else is dropped. */
  function DigitValues(s: string): (ds: seq<nat>)
    ensures |ds| <= |s|
    ensures forall i | 0 <= i < |ds| :: ds[i] < 10
    ensures AllDigits(s) ==> |ds| == |s| && forall i | 0 <= i < |s| :: ds[i] == DigitValue(s[i])
  {
    if |s| == 0 then []
    else if IsDigit(s[0]) then [DigitValue(s[0])] + DigitValues(s[1..])
    else DigitValues(s[1..])
  }

  /** The blocks the digits stand for, from digit number `k` on: even digits
      are file lengths with ids counting up from 0, odd digits free
      lengths. */
  function Layout(ds: seq<nat>, k: nat): (blocks: seq<Block>)
    ensures |blocks| == Sum(ds)
  {
    if |ds| == 0 then []
    else Repeat(if k % 2 == 0 then File(k / 2) else Free, ds[0]) + Layout(ds[1..], k + 1)
  }

  /** The state of the `for_each` closure in `FileSystem::from_str`. */
  datatype Scan = Scan(fileId: nat, currentIdx: nat, blocks: seq<Block>, isFile: bool, lastFileBlock: nat)

  /** One digit of `from_str`. `None` stands for the `usize` underflow of
      `current_idx - 1` when a file of length 0 starts at index 0. */
  function ScanDigit(st: Scan, val: nat): Option<Scan> {
    var endIdx := st.currentIdx + val;
    if st.isFile then
      if endIdx == 0 then None
      else Some(Scan(st.fileId + 1, endIdx, st.blocks + Repeat(File(st.fileId), val), false, endIdx - 1))
    else Some(Scan(st.fileId, endIdx, st.blocks + Repeat(Free, val), true, st.lastFileBlock))
  }

  function ScanDigits(st: Scan, ds: seq<nat>): Option<Scan>
    decreases |ds|
  {
    if |ds| == 0 then Some(st)
    else
      match ScanDigit(st, ds[0])
      case None => None
      case Some(next) => ScanDigits(next, ds[1..])
  }

  /** The ascending indices of the free blocks. */
  function FreeIndices(blocks: seq<Block>): (r: seq<nat>)
    ensures forall j | 0 <= j < |r| :: r[j] < |blocks| && blocks[r[j]] == Free
    ensures forall i | 0 <= i < |blocks| && blocks[i] == Free :: i in r
    ensures forall j, k | 0 <= j < k < |r| :: r[j] < r[k]
  {
    if |blocks| == 0 then []
    else
      var n := |blocks| - 1;
      var init := FreeIndices(blocks[..n]);
      assert forall i | 0 <= i < n :: blocks[..n][i] == blocks[i];
      init + (if blocks[n] == Free then [n] else [])
  }

  /** `FileSystem::from_str`; `None` stands for the underflow panic. */
  function FromStr(s: string): Option<FileSystem> {
    match ScanDigits(Scan(0, 0, [], true, 0), DigitValues(s))
    case None => None
    case Some(st) => Some(FileSystem(st.blocks, st.lastFileBlock, FreeIndices(st.blocks)))
  }

  /** What holds of the scan state after `k` digits. */
  predicate ScanInvariant(st: Scan, k: nat) {
    && st.currentIdx == |st.blocks|
    && st.fileId == (k + 1) / 2
    && st.isFile == (k % 2 == 0)
    && (k == 0 <==> |st.blocks| == 0)
    && (|st.blocks| == 0 ==> st.lastFileBlock == 0)
    && (0 < |st.blocks| ==> st.lastFileBlock < |st.blocks|)
    && (forall i | st.lastFileBlock < i < |st.blocks| :: st.blocks[i] == Free)
  }

  /** The scan from digit `k` on appends exactly the layout of the remaining
      digits, and fails only on a leading file of length 0. */
  lemma {:induction false} ScanDigitsLayout(st: Scan, ds: seq<nat>, k: nat)
    requires ScanInvariant(st, k)
    ensures ScanDigits(st, ds).None? <==> k == 0 && 0 < |ds| && ds[0] == 0
    ensures ScanDigits(st, ds).Some? ==>
              && ScanDigits(st, ds).value.blocks == st.blocks + Layout(ds, k)
              && ScanInvariant(ScanDigits(st, ds).value, k + |ds|)
    decreases |ds|
  {
    if |ds| == 0 {
      assert st.blocks + Layout(ds, k) == st.blocks;
    } else if !(k == 0 && ds[0] == 0) {
      ScanDigitStep(st, ds[0], k);
      var next := ScanDigit(st, ds[0]).value;
      assert ScanDigits(st, ds) == ScanDigits(next, ds[1..]);
      ScanDigitsLayout(next, ds[1..], k + 1);
      LayoutAppend(st.blocks, ds, k);
    }
  }

  /** The block kind digit number `k` stands for. */
  function DigitKind(k: nat): Block {
    if k % 2 == 0 then File(k / 2) else Free
  }

  /** One digit appends its run of blocks and keeps the scan invariant. */
  lemma ScanDigitStep(st: Scan, d: nat, k: nat)
    requires ScanInvariant(st, k) && !(k == 0 && d == 0)
    ensures ScanDigit(st, d).Some?
    ensures var next := ScanDigit(st, d).value;
            next.blocks == st.blocks + Repeat(DigitKind(k), d) && ScanInvariant(next, k + 1)
  {
  }

  lemma LayoutAppend(blocks: seq<Block>, ds: seq<nat>, k: nat)
    requires 0 < |ds|
    ensures blocks + Layout(ds, k) == (blocks + Repeat(DigitKind(k), ds[0])) + Layout(ds[1..], k + 1)
  {
  }

  /** Parsing fails only when the first digit is `0`; otherwise the blocks are
      the layout of the digits, their number is the digit sum, the queue
      holds every free index in ascending order, and no file block lies
      after `lastFileBlock`. */
  lemma FromStrMeaning(s: string)
    ensures FromStr(s).None? <==> 0 < |DigitValues(s)| && DigitValues(s)[0] == 0
    ensures FromStr(s).Some? ==>
              var fs := FromStr(s).value;
              && fs.blocks == Layout(DigitValues(s), 0)
              && |fs.blocks| == Sum(DigitValues(s))
              && fs.freeBlocks == FreeIndices(fs.blocks)
              && Valid(fs)
              && forall i | fs.lastFileBlock < i < |fs.blocks| :: fs.blocks[i] == Free
  {
    var ds := DigitValues(s);
    ScanDigitsLayout(Scan(0, 0, [], true, 0), ds, 0);
    assert [] + Layout(ds, 0) == Layout(ds, 0);
  }

  /** The indices the step relies on are in range. */
  predicate Valid(fs: FileSystem) {
    && (forall j | 0 <= j < |fs.freeBlocks| :: fs.freeBlocks[j] < |fs.blocks|)
    && (0 < |fs.blocks| ==> fs.lastFileBlock < |fs.blocks|)
  }

  /** The index of the last file block, if any (`iter().rev().position`). */
  function LastFileIndex(blocks: seq<Block>): (r: Option<nat>)
    ensures r.Some? ==> r.value < |blocks| && blocks[r.value] != Free
    ensures r.Some? ==> forall i | r.value < i < |blocks| :: blocks[i] == Free
    ensures r.None? ==> forall i | 0 <= i < |blocks| :: blocks[i] == Free
  {
    if |blocks| == 0 then None
    else if blocks[|blocks| - 1] != Free then Some(|blocks| - 1)
    else LastFileIndex(blocks[..|blocks| - 1])
  }

  /** `fragment_last_file_block`: take the first queued index, move the
      block at `lastFileBlock` there, free the old slot and queue it, then
      point `lastFileBlock` at the last file block. An empty queue leaves the
      system as it is. `None` stands for the panic when no file block is
      left. */
  function FragmentLastFileBlock(fs: FileSystem): (r: Option<FileSystem>)
    requires Valid(fs)
    ensures r.Some? ==> Valid(r.value) && |r.value.blocks| == |fs.blocks|
    ensures |fs.freeBlocks| == 0 ==> r == Some(fs)
  {
    if |fs.freeBlocks| == 0 then Some(fs)
    else
      var f, last := fs.freeBlocks[0], fs.lastFileBlock;
      var moved := fs.blocks[f := fs.blocks[last]][last := Free];
      match LastFileIndex(moved)
      case None => None
      case Some(j) => Some(FileSystem(moved, j, fs.freeBlocks[1..] + [last]))
  }

  /** What one step does: the first queued index now holds the block that
      was at `lastFileBlock`, that slot is free and queued last, no other
      block changes, and `lastFileBlock` is the last file block again. */
  lemma FragmentStepMeaning(fs: FileSystem)
    requires Valid(fs) && 0 < |fs.freeBlocks|
    requires FragmentLastFileBlock(fs).Some?
    ensures var r, f, last := FragmentLastFileBlock(fs).value, fs.freeBlocks[0], fs.lastFileBlock;
            && r.freeBlocks == fs.freeBlocks[1..] + [last]
            && r.blocks[last] == Free
            && (f != last ==> r.blocks[f] == fs.blocks[last])
            && (forall i | 0 <= i < |fs.blocks| && i != f && i != last :: r.blocks[i] == fs.blocks[i])
            && r.blocks[r.lastFileBlock] != Free
            && (forall i | r.lastFileBlock < i < |fs.blocks| :: r.blocks[i] == Free)
  {
  }

  /** `is_fragmented`: every queued index lies after `lastFileBlock`. */
  function IsFragmented(fs: FileSystem): (done: bool)
    ensures done <==> forall j | 0 <= j < |fs.freeBlocks| :: fs.lastFileBlock < fs.freeBlocks[j] < |fs.blocks|
  {
    forall j | 0 <= j < |fs.freeBlocks| :: fs.lastFileBlock + 1 <= fs.freeBlocks[j] < |fs.blocks|
  }

  /** No free block precedes a file block. */
  predicate Compact(blocks: seq<Block>) {
    forall i, j | 0 <= i < j < |blocks| :: blocks[i] == Free ==> blocks[j] == Free
  }

  /** `fragment`: step until fragmented. The loop need not end in general,
      so it runs on `fuel`. */
  function Fragment(fs: FileSystem, fuel: nat): (r: Result<FileSystem, FragmentError>)
    requires Valid(fs)
    decreases fuel
  {
    if IsFragmented(fs) then Ok(fs)
    else if fuel == 0 then Err(OutOfFuel)
    else
      match FragmentLastFileBlock(fs)
      case None => Err(NoFileBlockLeft)
      case Some(next) => Fragment(next, fuel - 1)
  }

  /** `fragment` stops only once fragmented, with as many blocks as it
      started with. */
  lemma FragmentResult(fs: FileSystem, fuel: nat)
    requires Valid(fs)
    ensures var r := Fragment(fs, fuel);
            r.Ok? ==> IsFragmented(r.value) && Valid(r.value) && |r.value.blocks| == |fs.blocks|
  {
    var r := Fragment(fs, fuel);
    if r.Ok? {
      FragmentEndsFragmented(fs, fuel, r.value);
    }
  }

  lemma {:induction false} FragmentEndsFragmented(fs: FileSystem, fuel: nat, r: FileSystem)
    requires Valid(fs) && Fragment(fs, fuel) == Ok(r)
    ensures IsFragmented(r) && Valid(r) && |r.blocks| == |fs.blocks|
    decreases fuel
  {
    if !IsFragmented(fs) {
      var next := FragmentLastFileBlock(fs).value;
      FragmentStep(fs, next, fuel);
      FragmentEndsFragmented(next, fuel - 1, r);
    }
  }

  /** A step that fills a free slot keeps every file block: the blocks are a
      permutation of what they were. */
  lemma FragmentStepKeepsFiles(fs: FileSystem)
    requires Valid(fs) && 0 < |fs.freeBlocks|
    requires fs.blocks[fs.freeBlocks[0]] == Free
    requires FragmentLastFileBlock(fs).Some?
    ensures multiset(FragmentLastFileBlock(fs).value.blocks) == multiset(fs.blocks)
  {
    var f, last := fs.freeBlocks[0], fs.lastFileBlock;
    var b := fs.blocks;
    var swapped := b[f := b[last]][last := b[f]];
    assert swapped == FragmentLastFileBlock(fs).value.blocks;
    SwapIsPermutation(b, f, last);
  }

  lemma SwapIsPermutation(b: seq<Block>, i: nat, j: nat)
    requires i < |b| && j < |b|
    ensures multiset(b[i := b[j]][j := b[i]]) == multiset(b)
  {
    var c := b[i := b[j]];
    assert multiset(c) == multiset(b) - multiset{b[i]} + multiset{b[j]};
    assert c[j] == b[j] || i == j;
  }

  /** The weight a block adds to the checksum at index `i`. */
  function Weight(i: nat, b: Block): nat {
    match b
    case File(id) => i * id
    case Free => 0
  }

  /** `checksum`: the sum of `index * id` over the file blocks. */
  function Checksum(blocks: seq<Block>): nat {
    if |blocks| == 0 then 0
    else Checksum(blocks[..|blocks| - 1]) + Weight(|blocks| - 1, blocks[|blocks| - 1])
  }

  /** Replacing one block changes the checksum by the difference of the two
      weights at that index. */
  lemma {:induction false} ChecksumUpdate(blocks: seq<Block>, i: nat, b: Block)
    requires i < |blocks|
    ensures Checksum(blocks[i := b]) + Weight(i, blocks[i]) == Checksum(blocks) + Weight(i, b)
  {
    var n := |blocks| - 1;
    if i < n {
      assert blocks[i := b][..n] == blocks[..n][i := b];
      ChecksumUpdate(blocks[..n], i, b);
    } else {
      assert blocks[i := b][..n] == blocks[..n];
    }
  }

  /** Moving file block `id` from `last` down to the free slot `f` lowers the
      checksum by `(last - f) * id`. */
  lemma FragmentStepChecksum(fs: FileSystem, id: nat)
    requires Valid(fs) && 0 < |fs.freeBlocks|
    requires fs.blocks[fs.freeBlocks[0]] == Free
    requires fs.freeBlocks[0] < fs.lastFileBlock < |fs.blocks|
    requires fs.blocks[fs.lastFileBlock] == File(id)
    requires FragmentLastFileBlock(fs).Some?
    ensures Checksum(FragmentLastFileBlock(fs).value.blocks) + (fs.lastFileBlock - fs.freeBlocks[0]) * id
            == Checksum(fs.blocks)
  {
    var f, last := fs.freeBlocks[0], fs.lastFileBlock;
    FragmentStepBlocks(fs);
    MoveChecksum(fs.blocks, f, last, id);
  }

  lemma FragmentStepBlocks(fs: FileSystem)
    requires Valid(fs) && 0 < |fs.freeBlocks|
    requires FragmentLastFileBlock(fs).Some?
    ensures FragmentLastFileBlock(fs).value.blocks
            == fs.blocks[fs.freeBlocks[0] := fs.blocks[fs.lastFileBlock]][fs.lastFileBlock := Free]
  {
  }

  /** Moving block `id` from `last` down to the free slot `f`. */
  lemma MoveChecksum(blocks: seq<Block>, f: nat, last: nat, id: nat)
    requires f < last < |blocks| && blocks[f] == Free && blocks[last] == File(id)
    ensures Checksum(blocks[f := File(id)][last := Free]) + (last - f) * id == Checksum(blocks)
  {
    var b1 := blocks[f := File(id)];
    ChecksumUpdate(blocks, f, File(id));
    ChecksumUpdate(b1, last, Free);
    assert last * id == (last - f) * id + f * id;
  }

  /** Display: ids in decimal, free blocks as `.`. */
  function Render(blocks: seq<Block>): string {
    if |blocks| == 0 then ""
    else
      Render(blocks[..|blocks| - 1])
      + match blocks[|blocks| - 1]
        case File(id) => ShowNat(id)
        case Free => "."
  }

  /** With single-digit ids the rendering has one character per block: a
      `.` exactly at the free blocks and the id's digit at the file blocks. */
  lemma {:induction false} RenderSingleDigits(blocks: seq<Block>)
    requires forall i | 0 <= i < |blocks| :: blocks[i].File? ==> blocks[i].id < 10
    ensures |Render(blocks)| == |blocks|
    ensures forall i | 0 <= i < |blocks| ::
              Render(blocks)[i] == (if blocks[i].Free? then '.' else DigitChar(blocks[i].id))
  {
    if |blocks| != 0 {
      var n := |blocks| - 1;
      assert forall i | 0 <= i < n :: blocks[..n][i] == blocks[i];
      RenderSingleDigits(blocks[..n]);
    }
  }

  /** A character of a rendering with single-digit ids: `.` or a digit. */
  predicate DiskChar(c: char) { c == '.' || IsDigit(c) }

  predicate DiskText(r: string) { forall i | 0 <= i < |r| :: DiskChar(r[i]) }

  /** The block a character of a rendering stands for: a digit is a file
      block with that id, anything else a free block. */
  function BlockOf(c: char): Block {
    if IsDigit(c) then File(DigitValue(c)) else Free
  }

  /** The blocks a rendering with single-digit ids stands for. */
  function BlocksOf(r: string): (b: seq<Block>)
    ensures |b| == |r| && forall i | 0 <= i < |r| :: b[i] == BlockOf(r[i])
  {
    seq(|r|, i requires 0 <= i < |r| => BlockOf(r[i]))
  }

  predicate SingleDigitIds(blocks: seq<Block>) {
    forall i | 0 <= i < |blocks| :: blocks[i].File? ==> blocks[i].id < 10
  }

  /** `BlocksOf` and `Render` are inverse to each other on single-digit ids. */
  lemma RenderBlocksOf(r: string)
    requires DiskText(r)
    ensures Render(BlocksOf(r)) == r
  {
    var b := BlocksOf(r);
    RenderSingleDigits(b);
    forall i | 0 <= i < |r| ensures Render(b)[i] == r[i] {
      if r[i] != '.' {
        DigitCharOfValue(r[i]);
      }
    }
  }

  lemma BlocksOfRender(blocks: seq<Block>)
    requires SingleDigitIds(blocks)
    ensures DiskText(Render(blocks)) && BlocksOf(Render(blocks)) == blocks
  {
    RenderSingleDigits(blocks);
  }

  /** Rendering two parts renders each in turn. */
  lemma {:induction false} RenderAppend(a: seq<Block>, b: seq<Block>)
    ensures Render(a + b) == Render(a) + Render(b)
  {
    if |b| == 0 {
      assert a + b == a;
    } else {
      var n := |b| - 1;
      assert (a + b)[..|a + b| - 1] == a + b[..n];
      RenderAppend(a, b[..n]);
    }
  }

  /** Indices whose neighbours ascend ascend throughout. */
  lemma {:induction false} AdjacentAscending(q: seq<nat>)
    requires forall j | 0 <= j < |q| - 1 :: q[j] < q[j + 1]
    ensures forall j, k | 0 <= j < k < |q| :: q[j] < q[k]
  {
    if |q| != 0 {
      var rest := q[1..];
      AdjacentAscending(rest);
      forall j, k | 0 <= j < k < |q| ensures q[j] < q[k] {
        if 0 < j {
          assert q[j] == rest[j - 1] && q[k] == rest[k - 1];
        } else if 1 < k {
          assert q[1] == rest[0] && q[k] == rest[k - 1];
        }
      }
    }
  }

  /** Two strictly ascending lists with the same elements are equal. */
  lemma {:induction false} AscendingUnique(a: seq<nat>, b: seq<nat>)
    requires forall j, k | 0 <= j < k < |a| :: a[j] < a[k]
    requires forall j, k | 0 <= j < k < |b| :: b[j] < b[k]
    requires forall x :: x in a <==> x in b
    ensures a == b
    decreases |a|
  {
    assert |a| == 0 <==> |b| == 0 by {
      if |a| != 0 {
        assert a[0] in b;
      }
      if |b| != 0 {
        assert b[0] in a;
      }
    }
    if |a| != 0 {
      assert a[0] in b && b[0] in a;
      assert a[0] == b[0];
      forall x ensures x in a[1..] <==> x in b[1..] {
        if x in a[1..] {
          assert x in b && x != b[0];
        }
        if x in b[1..] {
          assert x in a && x != a[0];
        }
      }
      AscendingUnique(a[1..], b[1..]);
    }
  }

  /** The free indices are the one strictly ascending list holding exactly
      the indices of the free blocks. */
  lemma FreeIndicesUnique(blocks: seq<Block>, q: seq<nat>)
    requires forall j | 0 <= j < |q| :: q[j] < |blocks| && blocks[q[j]] == Free
    requires forall i | 0 <= i < |blocks| && blocks[i] == Free :: i in q
    requires forall j | 0 <= j < |q| - 1 :: q[j] < q[j + 1]
    ensures FreeIndices(blocks) == q
  {
    AdjacentAscending(q);
    AscendingUnique(FreeIndices(blocks), q);
  }

  /** Free blocks at the end add nothing to the checksum. */
  lemma {:induction false} ChecksumTrailingFree(blocks: seq<Block>, n: nat)
    requires n <= |blocks| && forall i | n <= i < |blocks| :: blocks[i] == Free
    ensures Checksum(blocks) == Checksum(blocks[..n])
    decreases |blocks|
  {
    if n < |blocks| {
      var m := |blocks| - 1;
      assert blocks[..m][..n] == blocks[..n];
      ChecksumTrailingFree(blocks[..m], n);
    } else {
      assert blocks[..n] == blocks;
    }
  }

  /** The checksum of one more block of a prefix. */
  lemma ChecksumPrefixStep(blocks: seq<Block>, n: nat, c: nat)
    requires n < |blocks| && Checksum(blocks[..n]) == c
    ensures Checksum(blocks[..n + 1]) == c + Weight(n, blocks[n])
  {
    assert blocks[..n + 1][..n] == blocks[..n];
  }

  // ---------------------------------------------------------------------------
  // Compaction from a corrected start
  // ---------------------------------------------------------------------------

  /** `from_str` with `last_file_block` pointing at the last file block, as
      compaction expects; the blocks and the queue are those of `from_str`.
      The source instead keeps `current_idx - 1` after the last file digit,
      which is a free block when that file has length 0 and free space
      precedes it (see `TrailingEmptyFileBreaksCompaction`). */
  function FromStrCorrected(s: string): (fs: FileSystem)
    ensures fs.blocks == Layout(DigitValues(s), 0)
    ensures fs.freeBlocks == FreeIndices(fs.blocks)
    ensures (exists i | 0 <= i < |fs.blocks| :: fs.blocks[i].File?) ==> LastIsLastFile(fs)
  {
    var blocks := Layout(DigitValues(s), 0);
    var last := match LastFileIndex(blocks) case Some(j) => j case None => 0;
    FileSystem(blocks, last, FreeIndices(blocks))
  }

  /** On inputs whose last file is not empty, the source already computes
      the corrected state. */
  lemma FromStrAgreesWhenLastFileNonEmpty(s: string)
    requires FromStr(s).Some?
    requires FromStr(s).value.lastFileBlock < |FromStr(s).value.blocks|
    requires FromStr(s).value.blocks[FromStr(s).value.lastFileBlock] != Free
    ensures FromStr(s) == Some(FromStrCorrected(s))
  {
    FromStrMeaning(s);
    var fs := FromStr(s).value;
    var j := LastFileIndex(fs.blocks).value;
    assert !(j < fs.lastFileBlock) && !(fs.lastFileBlock < j);
  }

  /** `lastFileBlock` is the last file block, if there are blocks. */
  predicate LastIsLastFile(fs: FileSystem) {
    && (0 < |fs.blocks| ==> fs.lastFileBlock < |fs.blocks| && fs.blocks[fs.lastFileBlock] != Free)
    && (forall i | fs.lastFileBlock < i < |fs.blocks| :: fs.blocks[i] == Free)
  }

  /** Every free slot below `lastFileBlock` is queued. */
  predicate FreeSlotsQueued(fs: FileSystem) {
    forall i | 0 <= i < fs.lastFileBlock && i < |fs.blocks| && fs.blocks[i] == Free :: i in fs.freeBlocks
  }

  /** Queued indices are in range; those not above `lastFileBlock` are free
      and ascend, and come before any other. */
  predicate QueueOrdered(fs: FileSystem) {
    var q := fs.freeBlocks;
    && (forall j | 0 <= j < |q| :: q[j] < |fs.blocks|)
    && (forall j | 0 <= j < |q| && q[j] <= fs.lastFileBlock :: fs.blocks[q[j]] == Free)
    && (forall j, k | 0 <= j < k < |q| && q[k] <= fs.lastFileBlock :: q[j] < q[k])
  }

  /** What compaction keeps true from the corrected start on. */
  predicate CompactionInvariant(fs: FileSystem) {
    LastIsLastFile(fs) && FreeSlotsQueued(fs) && QueueOrdered(fs)
  }

  lemma InvariantIsValid(fs: FileSystem)
    requires CompactionInvariant(fs)
    ensures Valid(fs)
  {
  }

  lemma CorrectedStartInvariant(s: string)
    requires var b := Layout(DigitValues(s), 0); |b| == 0 || exists i | 0 <= i < |b| :: b[i].File?
    ensures CompactionInvariant(FromStrCorrected(s))
  {
  }

  /** While not fragmented, the first queued index is a free slot below
      `lastFileBlock`. */
  lemma FrontIsFreeBelowLast(fs: FileSystem)
    requires CompactionInvariant(fs) && !IsFragmented(fs)
    ensures 0 < |fs.freeBlocks| && fs.lastFileBlock < |fs.blocks|
    ensures fs.freeBlocks[0] < fs.lastFileBlock && fs.blocks[fs.freeBlocks[0]] == Free
  {
    var q := fs.freeBlocks;
    var k :| 0 <= k < |q| && !(fs.lastFileBlock < q[k] < |fs.blocks|);
    assert q[0] <= q[k];
  }

  /** The state after one compaction step, spelled out. */
  function NextState(fs: FileSystem, j: nat): FileSystem
    requires 0 < |fs.freeBlocks| && fs.freeBlocks[0] < |fs.blocks| && fs.lastFileBlock < |fs.blocks|
  {
    var f, last := fs.freeBlocks[0], fs.lastFileBlock;
    FileSystem(fs.blocks[f := fs.blocks[last]][last := Free], j, fs.freeBlocks[1..] + [last])
  }

  lemma StepIsNextState(fs: FileSystem)
    requires CompactionInvariant(fs) && !IsFragmented(fs)
    ensures FragmentLastFileBlock(fs).Some?
    ensures FrontIsFreeBelowLastHolds(fs)
    ensures var next := FragmentLastFileBlock(fs).value;
            && next == NextState(fs, next.lastFileBlock)
            && fs.freeBlocks[0] <= next.lastFileBlock < fs.lastFileBlock
            && LastIsLastFile(next)
  {
    FrontIsFreeBelowLast(fs);
    var f, last := fs.freeBlocks[0], fs.lastFileBlock;
    var moved := fs.blocks[f := fs.blocks[last]][last := Free];
    assert moved[f] != Free;
    var j := LastFileIndex(moved).value;
    assert f <= j < last;
  }

  predicate FrontIsFreeBelowLastHolds(fs: FileSystem) {
    && 0 < |fs.freeBlocks| && fs.lastFileBlock < |fs.blocks|
    && fs.freeBlocks[0] < fs.lastFileBlock && fs.blocks[fs.freeBlocks[0]] == Free
  }

  lemma StepKeepsFreeSlotsQueued(fs: FileSystem, j: nat)
    requires CompactionInvariant(fs) && FrontIsFreeBelowLastHolds(fs)
    requires fs.freeBlocks[0] <= j < fs.lastFileBlock
    ensures FreeSlotsQueued(NextState(fs, j))
  {
    var q, f := fs.freeBlocks, fs.freeBlocks[0];
    var next := NextState(fs, j);
    forall i | 0 <= i < j && next.blocks[i] == Free ensures i in next.freeBlocks {
      assert i != f;
      var m :| 0 <= m < |q| && q[m] == i;
      assert next.freeBlocks[m - 1] == i;
    }
  }

  lemma StepKeepsQueueOrdered(fs: FileSystem, j: nat)
    requires CompactionInvariant(fs) && FrontIsFreeBelowLastHolds(fs)
    requires fs.freeBlocks[0] <= j < fs.lastFileBlock
    ensures QueueOrdered(NextState(fs, j))
  {
    var q := fs.freeBlocks;
    var next := NextState(fs, j);
    var q' := next.freeBlocks;
    forall m | 0 <= m < |q'| && q'[m] <= j ensures next.blocks[q'[m]] == Free {
      assert m < |q| - 1 && q'[m] == q[m + 1];
      assert q[0] < q[m + 1];
    }
    forall m, n | 0 <= m < n < |q'| && q'[n] <= j ensures q'[m] < q'[n] {
      assert n < |q| - 1 && q'[n] == q[n + 1] && q'[m] == q[m + 1];
    }
  }

  /** A step taken while not fragmented moves a file block into a free slot
      below it, keeps the invariant and lowers `lastFileBlock`. */
  lemma CompactionStep(fs: FileSystem)
    requires CompactionInvariant(fs) && !IsFragmented(fs)
    ensures FragmentLastFileBlock(fs).Some?
    ensures var next := FragmentLastFileBlock(fs).value;
            && CompactionInvariant(next)
            && next.lastFileBlock < fs.lastFileBlock
            && multiset(next.blocks) == multiset(fs.blocks)
  {
    StepIsNextState(fs);
    var j := FragmentLastFileBlock(fs).value.lastFileBlock;
    StepKeepsFreeSlotsQueued(fs, j);
    StepKeepsQueueOrdered(fs, j);
    InvariantIsValid(fs);
    FragmentStepKeepsFiles(fs);
  }

  /** A fragmented system that keeps the invariant is compact. */
  lemma InvariantFragmentedIsCompact(fs: FileSystem)
    requires CompactionInvariant(fs) && IsFragmented(fs)
    ensures Compact(fs.blocks)
  {
  }

  /** A run of `fragment_last_file_block` steps: every state but the last
      is valid, not yet fragmented, and steps to the one after it. */
  predicate IsRun(states: seq<FileSystem>) {
    forall i | 0 <= i < |states| - 1 ::
      Valid(states[i]) && !IsFragmented(states[i]) && FragmentLastFileBlock(states[i]) == Some(states[i + 1])
  }

  /** A step in front of a run is a run. */
  lemma RunCons(fs: FileSystem, rest: seq<FileSystem>)
    requires 0 < |rest| && IsRun(rest)
    requires Valid(fs) && !IsFragmented(fs) && FragmentLastFileBlock(fs) == Some(rest[0])
    ensures IsRun([fs] + rest)
  {
    var states := [fs] + rest;
    forall i | 1 <= i < |states| - 1
      ensures Valid(states[i]) && !IsFragmented(states[i]) && FragmentLastFileBlock(states[i]) == Some(states[i + 1])
    {
      assert states[i] == rest[i - 1] && states[i + 1] == rest[i];
    }
  }

  /** A run of two or more states is a step followed by a run. */
  lemma RunTail(states: seq<FileSystem>)
    requires 1 < |states| && IsRun(states)
    ensures Valid(states[0]) && !IsFragmented(states[0])
    ensures FragmentLastFileBlock(states[0]) == Some(states[1..][0])
    ensures IsRun(states[1..]) && states[1..][|states| - 2] == states[|states| - 1]
  {
    var rest := states[1..];
    forall i | 0 <= i < |rest| - 1
      ensures Valid(rest[i]) && !IsFragmented(rest[i]) && FragmentLastFileBlock(rest[i]) == Some(rest[i + 1])
    {
      assert rest[i] == states[i + 1] && rest[i + 1] == states[i + 2];
    }
  }

  /** From the invariant, the steps run to a fragmented state within
      `lastFileBlock` steps, never panic, keep every file block and leave
      the disk compact. */
  lemma {:induction false} CompactionRun(fs: FileSystem) returns (states: seq<FileSystem>)
    requires CompactionInvariant(fs)
    ensures 0 < |states| <= fs.lastFileBlock + 1 && states[0] == fs && IsRun(states)
    ensures var last := states[|states| - 1];
            && Valid(last) && IsFragmented(last)
            && Compact(last.blocks) && multiset(last.blocks) == multiset(fs.blocks)
    decreases fs.lastFileBlock
  {
    InvariantIsValid(fs);
    if IsFragmented(fs) {
      InvariantFragmentedIsCompact(fs);
      states := [fs];
    } else {
      CompactionStep(fs);
      var rest := CompactionRun(FragmentLastFileBlock(fs).value);
      RunCons(fs, rest);
      states := [fs] + rest;
      assert states[|states| - 1] == rest[|rest| - 1];
    }
  }

  /** `fragment` follows a run to its end, given fuel for every step. */
  lemma {:induction false} FragmentFollowsRun(states: seq<FileSystem>, fuel: nat)
    requires 0 < |states| && IsRun(states) && |states| - 1 <= fuel
    requires Valid(states[|states| - 1]) && IsFragmented(states[|states| - 1])
    ensures Valid(states[0]) && Fragment(states[0], fuel) == Ok(states[|states| - 1])
  {
    if |states| == 1 {
      FragmentDone(states[0], fuel);
    } else {
      var rest := states[1..];
      RunTail(states);
      FragmentFollowsRun(rest, fuel - 1);
      FragmentStep(states[0], rest[0], fuel);
    }
  }

  lemma FragmentDone(fs: FileSystem, fuel: nat)
    requires Valid(fs) && IsFragmented(fs)
    ensures Fragment(fs, fuel) == Ok(fs)
  {
  }

  /** One step of `fragment`: it goes on from the next state, with one unit
      of fuel less. */
  lemma FragmentStep(fs: FileSystem, next: FileSystem, fuel: nat)
    requires Valid(fs) && !IsFragmented(fs) && 0 < fuel
    requires FragmentLastFileBlock(fs) == Some(next)
    ensures Valid(next) && Fragment(fs, fuel) == Fragment(next, fuel - 1)
  {
  }

  /** `r` is a compact result holding the same blocks as `blocks`. */
  predicate CompactedFrom(r: Result<FileSystem, FragmentError>, blocks: seq<Block>) {
    r.Ok? && Compact(r.value.blocks) && multiset(r.value.blocks) == multiset(blocks)
  }

  /** Compaction from the corrected start: for any disk map holding a file
      block (or none at all), as many steps as there are blocks suffice, and
      the result is compact and holds the same blocks. */
  lemma CorrectedCompaction(s: string)
    requires var b := Layout(DigitValues(s), 0); |b| == 0 || exists i | 0 <= i < |b| :: b[i].File?
    ensures var fs := FromStrCorrected(s);
            CompactedFrom(Fragment(fs, |fs.blocks| + 1), fs.blocks)
  {
    var fs := FromStrCorrected(s);
    var states := CorrectedRun(s);
    var last := states[|states| - 1];
    assert states[0] == fs && |states| - 1 <= |fs.blocks| + 1;
    assert Compact(last.blocks) && multiset(last.blocks) == multiset(fs.blocks);
    RunCompacts(fs, states, |fs.blocks| + 1);
  }

  /** A run from `fs` to a compact state holding the same blocks: with fuel
      for every step, `fragment` returns that state. */
  lemma RunCompacts(fs: FileSystem, states: seq<FileSystem>, fuel: nat)
    requires 0 < |states| && states[0] == fs && IsRun(states) && |states| - 1 <= fuel
    requires var last := states[|states| - 1];
             && Valid(last) && IsFragmented(last)
             && Compact(last.blocks) && multiset(last.blocks) == multiset(fs.blocks)
    ensures Valid(fs) && CompactedFrom(Fragment(fs, fuel), fs.blocks)
  {
    FragmentFollowsRun(states, fuel);
  }

  /** The run from the corrected start. */
  lemma CorrectedRun(s: string) returns (states: seq<FileSystem>)
    requires var b := Layout(DigitValues(s), 0); |b| == 0 || exists i | 0 <= i < |b| :: b[i].File?
    ensures var fs := FromStrCorrected(s);
            && 0 < |states| <= |fs.blocks| + 1 && states[0] == fs && IsRun(states)
            && var last := states[|states| - 1];
               && Valid(last) && IsFragmented(last)
               && Compact(last.blocks) && multiset(last.blocks) == multiset(fs.blocks)
  {
    CorrectedStartInvariant(s);
    var fs := FromStrCorrected(s);
    states := CompactionRun(fs);
    assert fs.lastFileBlock <= |fs.blocks|;
  }

  /** The disk map `11120` ends with an empty file after free space. The
      source points `lastFileBlock` at the free block 4, the first step moves
      a free block onto free block 1, and the queue `[3, 4, 4]` then counts
      as fragmented: compaction stops at `0.1..`, which is not compact. */
  lemma TrailingEmptyFileBreaksCompaction()
    ensures FromStr("11120") == Some(FileSystem([File(0), Free, File(1), Free, Free], 4, [1, 3, 4]))
    ensures var r := Fragment(FromStr("11120").value, 5);
            && r == Ok(FileSystem([File(0), Free, File(1), Free, Free], 2, [3, 4, 4]))
            && !Compact(r.value.blocks)
            && Checksum(r.value.blocks) == 2
  {
    ExampleDigits();
    ExampleScan();
    ExampleFreeIndices();
    AsWrittenExampleFragment();
    ExampleChecksums();
  }

  lemma AsWrittenExampleFragment()
    ensures var b := [File(0), Free, File(1), Free, Free];
            Fragment(FileSystem(b, 4, [1, 3, 4]), 5) == Ok(FileSystem(b, 2, [3, 4, 4]))
  {
    var b := [File(0), Free, File(1), Free, Free];
    var fs := FileSystem(b, 4, [1, 3, 4]);
    assert fs.freeBlocks[0] == 1;
    assert !IsFragmented(fs);
    assert b[1 := b[4]][4 := Free] == b;
    ExampleLastFile();
    assert fs.freeBlocks[1..] + [4] == [3, 4, 4];
    var next := FileSystem(b, 2, [3, 4, 4]);
    assert FragmentLastFileBlock(fs) == Some(next);
    assert IsFragmented(next);
  }

  /** From the corrected start the same disk map compacts to `01...`, with
      checksum 1. */
  lemma TrailingEmptyFileCorrected()
    ensures var r := Fragment(FromStrCorrected("11120"), 5);
            && r == Ok(FileSystem([File(0), File(1), Free, Free, Free], 1, [3, 4, 2]))
            && Compact(r.value.blocks)
            && Checksum(r.value.blocks) == 1
  {
    ExampleDigits();
    ExampleLayout();
    ExampleFreeIndices();
    ExampleLastFile();
    CorrectedExampleFragment();
    ExampleChecksums();
  }

  lemma CorrectedExampleFragment()
    ensures var b, b' := [File(0), Free, File(1), Free, Free], [File(0), File(1), Free, Free, Free];
            Fragment(FileSystem(b, 2, [1, 3, 4]), 5) == Ok(FileSystem(b', 1, [3, 4, 2]))
  {
    var b := [File(0), Free, File(1), Free, Free];
    var fs := FileSystem(b, 2, [1, 3, 4]);
    assert fs.freeBlocks[0] == 1;
    assert !IsFragmented(fs);
    var b' := [File(0), File(1), Free, Free, Free];
    assert b[1 := b[2]][2 := Free] == b';
    var q2, q3, q4 := [File(0), File(1)], [File(0), File(1), Free], [File(0), File(1), Free, Free];
    assert q3[..2] == q2 && q4[..3] == q3 && b'[..4] == q4;
    assert LastFileIndex(q2) == Some(1);
    assert LastFileIndex(q3) == Some(1);
    assert LastFileIndex(q4) == Some(1);
    assert LastFileIndex(b') == Some(1);
    assert fs.freeBlocks[1..] + [2] == [3, 4, 2];
    var next := FileSystem(b', 1, [3, 4, 2]);
    assert FragmentLastFileBlock(fs) == Some(next);
    assert IsFragmented(next);
  }

  lemma ExampleChecksums()
    ensures var b, b' := [File(0), Free, File(1), Free, Free], [File(0), File(1), Free, Free, Free];
            && Checksum(b) == 2 && !Compact(b)
            && Checksum(b') == 1 && Compact(b')
  {
    var b := [File(0), Free, File(1), Free, Free];
    assert b[1] == Free && b[2] != Free;
    var p1, p2, p3, p4 := [File(0)], [File(0), Free], [File(0), Free, File(1)], [File(0), Free, File(1), Free];
    assert p2[..1] == p1 && p3[..2] == p2 && p4[..3] == p3 && b[..4] == p4;
    assert Checksum(p1) == 0;
    assert Checksum(p2) == 0;
    assert Checksum(p3) == 2;
    assert Checksum(p4) == 2;
    var b' := [File(0), File(1), Free, Free, Free];
    var q2, q3, q4 := [File(0), File(1)], [File(0), File(1), Free], [File(0), File(1), Free, Free];
    assert q2[..1] == p1 && q3[..2] == q2 && q4[..3] == q3 && b'[..4] == q4;
    assert Checksum(q2) == 1;
    assert Checksum(q3) == 1;
    assert Checksum(q4) == 1;
  }

  lemma ExampleDigits()
    ensures DigitValues("11120") == [1, 1, 1, 2, 0]
  {
    assert DigitValues("0") == [0];
    assert DigitValues("20") == [2, 0];
    assert DigitValues("120") == [1, 2, 0];
    assert DigitValues("1120") == [1, 1, 2, 0];
  }

  lemma ExampleScan()
    ensures ScanDigits(Scan(0, 0, [], true, 0), [1, 1, 1, 2, 0])
            == Some(Scan(3, 5, [File(0), Free, File(1), Free, Free], false, 4))
  {
    var b := [File(0), Free, File(1), Free, Free];
    var ds := [1, 1, 1, 2, 0];
    assert Repeat(File(0), 1) == [File(0)] && Repeat(Free, 1) == [Free];
    assert Repeat(File(1), 1) == [File(1)] && Repeat(Free, 2) == [Free, Free];
    assert Repeat(File(2), 0) == [];
    var s0 := Scan(0, 0, [], true, 0);
    var s1 := Scan(1, 1, [File(0)], false, 0);
    var s2 := Scan(1, 2, [File(0), Free], true, 0);
    var s3 := Scan(2, 3, [File(0), Free, File(1)], false, 2);
    assert s0.blocks + Repeat(File(0), 1) == s1.blocks;
    assert s1.blocks + Repeat(Free, 1) == s2.blocks;
    assert s2.blocks + Repeat(File(1), 1) == s3.blocks;
    assert s3.blocks + Repeat(Free, 2) == b;
    assert b + Repeat(File(2), 0) == b;
    var s4 := Scan(2, 5, b, true, 2);
    var s5 := Scan(3, 5, b, false, 4);
    assert ScanDigit(s0, 1) == Some(s1);
    assert ScanDigit(s1, 1) == Some(s2);
    assert ScanDigit(s2, 1) == Some(s3);
    assert ScanDigit(s3, 2) == Some(s4);
    assert ScanDigit(s4, 0) == Some(s5);
    assert ScanDigits(s5, ds[5..]) == Some(s5);
    assert ScanDigits(s4, ds[4..]) == Some(s5);
    assert ScanDigits(s3, ds[3..]) == Some(s5);
    assert ScanDigits(s2, ds[2..]) == Some(s5);
    assert ScanDigits(s1, ds[1..]) == Some(s5);
    assert ScanDigits(s0, ds) == Some(s5);
  }

  lemma ExampleLayout()
    ensures Layout([1, 1, 1, 2, 0], 0) == [File(0), Free, File(1), Free, Free]
  {
    var ds := [1, 1, 1, 2, 0];
    assert Repeat(File(0), 1) == [File(0)] && Repeat(Free, 1) == [Free];
    assert Repeat(File(1), 1) == [File(1)] && Repeat(Free, 2) == [Free, Free];
    assert Repeat(File(2), 0) == [];
    assert Layout(ds[5..], 5) == [];
    assert Layout(ds[4..], 4) == [];
    assert Layout(ds[3..], 3) == [Free, Free];
    assert Layout(ds[2..], 2) == [File(1), Free, Free];
    assert Layout(ds[1..], 1) == [Free, File(1), Free, Free];
  }

  lemma ExampleFreeIndices()
    ensures FreeIndices([File(0), Free, File(1), Free, Free]) == [1, 3, 4]
  {
    ExampleFreeIndicesOfPrefix();
    assert [File(0), Free, File(1), Free] + [Free] == [File(0), Free, File(1), Free, Free];
    FreeIndicesSnoc([File(0), Free, File(1), Free], Free);
  }

  lemma ExampleFreeIndicesOfPrefix()
    ensures FreeIndices([File(0), Free, File(1), Free]) == [1, 3]
  {
    ExampleFreeIndicesOfShortPrefix();
    assert [File(0), Free, File(1)] + [Free] == [File(0), Free, File(1), Free];
    FreeIndicesSnoc([File(0), Free, File(1)], Free);
  }

  lemma ExampleFreeIndicesOfShortPrefix()
    ensures FreeIndices([File(0), Free, File(1)]) == [1]
  {
    assert [File(0)] + [Free] == [File(0), Free];
    assert [File(0), Free] + [File(1)] == [File(0), Free, File(1)];
    FreeIndicesSnoc([File(0)], Free);
    FreeIndicesSnoc([File(0), Free], File(1));
  }

  /** Appending a block queues its index exactly when it is free. */
  lemma FreeIndicesSnoc(blocks: seq<Block>, b: Block)
    ensures FreeIndices(blocks + [b]) == FreeIndices(blocks) + (if b == Free then [|blocks|] else [])
  {
    assert (blocks + [b])[..|blocks|] == blocks;
  }

  lemma ExampleLastFile()
    ensures LastFileIndex([File(0), Free, File(1), Free, Free]) == Some(2)
  {
    var b := [File(0), Free, File(1), Free, Free];
    assert LastFileIndex(b[..3]) == Some(2);
    assert LastFileIndex(b[..4]) == Some(2);
  }

  // ---------------------------------------------------------------------------
  // The example disk map of the unit tests
  // ---------------------------------------------------------------------------

  // The unit tests parse the example map, take one step, and compact it. The
  // disk has 42 blocks, so each state is pinned down block by block: every
  // lemma below takes a sequence of blocks described index by index and
  // reads the next state off those facts.

  /** `s` is the example map `2333133121414131402`, character by
      character. */
  predicate SpellsExampleMap(s: string) {
    && |s| == 19 && s[0] == '2' && s[1] == '3' && s[2] == '3' && s[3] == '3' && s[4] == '1' && s[5] == '3' && s[6] == '3'
    && s[7] == '1' && s[8] == '2' && s[9] == '1' && s[10] == '4' && s[11] == '1' && s[12] == '4' && s[13] == '1'
    && s[14] == '3' && s[15] == '1' && s[16] == '4' && s[17] == '0' && s[18] == '2'
  }

  /** The layout of the digits from `k` on: the run of digit `k`, then the
      layout of the rest. */
  lemma LayoutSplit(ds: seq<nat>, k: nat)
    requires 0 < |ds|
    ensures Layout(ds, k) == Repeat(DigitKind(k), ds[0]) + Layout(ds[1..], k + 1)
  {
  }

  /** One step read off a few blocks: the front of the queue lies below
      `last`, which holds a file block with only free blocks after it, and
      once that block has moved, `j` holds a file block with only free
      blocks after it. The step then leads to the moved blocks with `j` as
      the new `lastFileBlock` and the emptied index queued. */
  lemma BlockStep(b: seq<Block>, last: nat, q: seq<nat>, j: nat)
    requires 0 < |q| && q[0] < last < |b| && forall k | 0 <= k < |q| :: q[k] < |b|
    requires b[last] != Free && forall k | last < k < |b| :: b[k] == Free
    requires var moved := b[q[0] := b[last]][last := Free];
             j < |b| && moved[j] != Free && forall k | j < k < last :: moved[k] == Free
    ensures Valid(FileSystem(b, last, q)) && !IsFragmented(FileSystem(b, last, q))
    ensures var moved := b[q[0] := b[last]][last := Free];
            && FragmentLastFileBlock(FileSystem(b, last, q)) == Some(FileSystem(moved, j, q[1..] + [last]))
            && forall k | j < k < |moved| :: moved[k] == Free
  {
    var moved := b[q[0] := b[last]][last := Free];
    assert LastFileIndex(moved).Some?;
    var v := LastFileIndex(moved).value;
    assert !(v < j) && !(j < v);
  }

  /** The digits of the example map. */
  lemma ExampleDigitsOf(s: string)
    requires SpellsExampleMap(s)
    ensures DigitValues(s) == [2, 3, 3, 3, 1, 3, 3, 1, 2, 1, 4, 1, 4, 1, 3, 1, 4, 0, 2]
  {
    assert AllDigits(s);
  }

  /** Digits 13 to 18 of the example lay out as `.777.888899`. */
  lemma ExampleLayoutTail(ds: seq<nat>)
    requires |ds| == 6 && ds[0] == 1 && ds[1] == 3 && ds[2] == 1 && ds[3] == 4 && ds[4] == 0 && ds[5] == 2
    ensures |Layout(ds, 13)| == 11
    ensures Layout(ds, 13)[0] == Free && Layout(ds, 13)[1] == File(7) && Layout(ds, 13)[2] == File(7) && Layout(ds, 13)[3] == File(7) && Layout(ds, 13)[4] == Free && Layout(ds, 13)[5] == File(8)
    ensures Layout(ds, 13)[6] == File(8) && Layout(ds, 13)[7] == File(8) && Layout(ds, 13)[8] == File(8) && Layout(ds, 13)[9] == File(9) && Layout(ds, 13)[10] == File(9)
  {
    LayoutSplit(ds[0..], 13);
    assert ds[0..][1..] == ds[1..];
    LayoutSplit(ds[1..], 14);
    assert ds[1..][1..] == ds[2..];
    LayoutSplit(ds[2..], 15);
    assert ds[2..][1..] == ds[3..];
    LayoutSplit(ds[3..], 16);
    assert ds[3..][1..] == ds[4..];
    LayoutSplit(ds[4..], 17);
    assert ds[4..][1..] == ds[5..];
    LayoutSplit(ds[5..], 18);
    assert ds[5..][1..] == ds[6..];
    assert ds[0..] == ds;
  }

  /** Digits 7 to 12 of the example lay out as `.44.5555.6666`, followed by the layout of the rest. */
  lemma ExampleLayoutMiddle(ds: seq<nat>)
    requires |ds| == 12 && ds[0] == 1 && ds[1] == 2 && ds[2] == 1 && ds[3] == 4 && ds[4] == 1 && ds[5] == 4
    requires |Layout(ds[6..], 13)| == 11
    ensures |Layout(ds, 7)| == 24
    ensures Layout(ds, 7)[0] == Free && Layout(ds, 7)[1] == File(4) && Layout(ds, 7)[2] == File(4) && Layout(ds, 7)[3] == Free && Layout(ds, 7)[4] == File(5) && Layout(ds, 7)[5] == File(5)
    ensures Layout(ds, 7)[6] == File(5) && Layout(ds, 7)[7] == File(5) && Layout(ds, 7)[8] == Free && Layout(ds, 7)[9] == File(6) && Layout(ds, 7)[10] == File(6) && Layout(ds, 7)[11] == File(6)
    ensures Layout(ds, 7)[12] == File(6)
    ensures Layout(ds, 7)[13] == Layout(ds[6..], 13)[0] && Layout(ds, 7)[14] == Layout(ds[6..], 13)[1] && Layout(ds, 7)[15] == Layout(ds[6..], 13)[2] && Layout(ds, 7)[16] == Layout(ds[6..], 13)[3] && Layout(ds, 7)[17] == Layout(ds[6..], 13)[4] && Layout(ds, 7)[18] == Layout(ds[6..], 13)[5]
    ensures Layout(ds, 7)[19] == Layout(ds[6..], 13)[6] && Layout(ds, 7)[20] == Layout(ds[6..], 13)[7] && Layout(ds, 7)[21] == Layout(ds[6..], 13)[8] && Layout(ds, 7)[22] == Layout(ds[6..], 13)[9] && Layout(ds, 7)[23] == Layout(ds[6..], 13)[10]
  {
    LayoutSplit(ds[0..], 7);
    assert ds[0..][1..] == ds[1..];
    LayoutSplit(ds[1..], 8);
    assert ds[1..][1..] == ds[2..];
    LayoutSplit(ds[2..], 9);
    assert ds[2..][1..] == ds[3..];
    LayoutSplit(ds[3..], 10);
    assert ds[3..][1..] == ds[4..];
    LayoutSplit(ds[4..], 11);
    assert ds[4..][1..] == ds[5..];
    LayoutSplit(ds[5..], 12);
    assert ds[5..][1..] == ds[6..];
    assert ds[0..] == ds;
  }

  /** Digits 0 to 6 of the example lay out as `00...111...2...333`, followed by the layout of the rest. */
  lemma ExampleLayoutHead(ds: seq<nat>)
    requires |ds| == 19 && ds[0] == 2 && ds[1] == 3 && ds[2] == 3 && ds[3] == 3 && ds[4] == 1 && ds[5] == 3 && ds[6] == 3
    requires |Layout(ds[7..], 7)| == 24
    ensures |Layout(ds, 0)| == 42
    ensures Layout(ds, 0)[0] == File(0) && Layout(ds, 0)[1] == File(0) && Layout(ds, 0)[2] == Free && Layout(ds, 0)[3] == Free && Layout(ds, 0)[4] == Free && Layout(ds, 0)[5] == File(1)
    ensures Layout(ds, 0)[6] == File(1) && Layout(ds, 0)[7] == File(1) && Layout(ds, 0)[8] == Free && Layout(ds, 0)[9] == Free && Layout(ds, 0)[10] == Free && Layout(ds, 0)[11] == File(2)
    ensures Layout(ds, 0)[12] == Free && Layout(ds, 0)[13] == Free && Layout(ds, 0)[14] == Free && Layout(ds, 0)[15] == File(3) && Layout(ds, 0)[16] == File(3) && Layout(ds, 0)[17] == File(3)
    ensures Layout(ds, 0)[18] == Layout(ds[7..], 7)[0] && Layout(ds, 0)[19] == Layout(ds[7..], 7)[1] && Layout(ds, 0)[20] == Layout(ds[7..], 7)[2] && Layout(ds, 0)[21] == Layout(ds[7..], 7)[3] && Layout(ds, 0)[22] == Layout(ds[7..], 7)[4] && Layout(ds, 0)[23] == Layout(ds[7..], 7)[5]
    ensures Layout(ds, 0)[24] == Layout(ds[7..], 7)[6] && Layout(ds, 0)[25] == Layout(ds[7..], 7)[7] && Layout(ds, 0)[26] == Layout(ds[7..], 7)[8] && Layout(ds, 0)[27] == Layout(ds[7..], 7)[9] && Layout(ds, 0)[28] == Layout(ds[7..], 7)[10] && Layout(ds, 0)[29] == Layout(ds[7..], 7)[11]
    ensures Layout(ds, 0)[30] == Layout(ds[7..], 7)[12] && Layout(ds, 0)[31] == Layout(ds[7..], 7)[13] && Layout(ds, 0)[32] == Layout(ds[7..], 7)[14] && Layout(ds, 0)[33] == Layout(ds[7..], 7)[15] && Layout(ds, 0)[34] == Layout(ds[7..], 7)[16] && Layout(ds, 0)[35] == Layout(ds[7..], 7)[17]
    ensures Layout(ds, 0)[36] == Layout(ds[7..], 7)[18] && Layout(ds, 0)[37] == Layout(ds[7..], 7)[19] && Layout(ds, 0)[38] == Layout(ds[7..], 7)[20] && Layout(ds, 0)[39] == Layout(ds[7..], 7)[21] && Layout(ds, 0)[40] == Layout(ds[7..], 7)[22] && Layout(ds, 0)[41] == Layout(ds[7..], 7)[23]
  {
    LayoutSplit(ds[0..], 0);
    assert ds[0..][1..] == ds[1..];
    LayoutSplit(ds[1..], 1);
    assert ds[1..][1..] == ds[2..];
    LayoutSplit(ds[2..], 2);
    assert ds[2..][1..] == ds[3..];
    LayoutSplit(ds[3..], 3);
    assert ds[3..][1..] == ds[4..];
    LayoutSplit(ds[4..], 4);
    assert ds[4..][1..] == ds[5..];
    LayoutSplit(ds[5..], 5);
    assert ds[5..][1..] == ds[6..];
    LayoutSplit(ds[6..], 6);
    assert ds[6..][1..] == ds[7..];
    assert ds[0..] == ds;
  }

  /** The example digits lay out as the disk `00...111...2...333.44.5555.6666.777.888899`. */
  lemma ExampleMapLayout(ds: seq<nat>)
    requires ds == [2, 3, 3, 3, 1, 3, 3, 1, 2, 1, 4, 1, 4, 1, 3, 1, 4, 0, 2]
    ensures |Layout(ds, 0)| == 42
    ensures Layout(ds, 0)[0] == File(0) && Layout(ds, 0)[1] == File(0) && Layout(ds, 0)[2] == Free && Layout(ds, 0)[3] == Free && Layout(ds, 0)[4] == Free && Layout(ds, 0)[5] == File(1)
    ensures Layout(ds, 0)[6] == File(1) && Layout(ds, 0)[7] == File(1) && Layout(ds, 0)[8] == Free && Layout(ds, 0)[9] == Free && Layout(ds, 0)[10] == Free && Layout(ds, 0)[11] == File(2)
    ensures Layout(ds, 0)[12] == Free && Layout(ds, 0)[13] == Free && Layout(ds, 0)[14] == Free && Layout(ds, 0)[15] == File(3) && Layout(ds, 0)[16] == File(3) && Layout(ds, 0)[17] == File(3)
    ensures Layout(ds, 0)[18] == Free && Layout(ds, 0)[19] == File(4) && Layout(ds, 0)[20] == File(4) && Layout(ds, 0)[21] == Free && Layout(ds, 0)[22] == File(5) && Layout(ds, 0)[23] == File(5)
    ensures Layout(ds, 0)[24] == File(5) && Layout(ds, 0)[25] == File(5) && Layout(ds, 0)[26] == Free && Layout(ds, 0)[27] == File(6) && Layout(ds, 0)[28] == File(6) && Layout(ds, 0)[29] == File(6)
    ensures Layout(ds, 0)[30] == File(6) && Layout(ds, 0)[31] == Free && Layout(ds, 0)[32] == File(7) && Layout(ds, 0)[33] == File(7) && Layout(ds, 0)[34] == File(7) && Layout(ds, 0)[35] == Free
    ensures Layout(ds, 0)[36] == File(8) && Layout(ds, 0)[37] == File(8) && Layout(ds, 0)[38] == File(8) && Layout(ds, 0)[39] == File(8) && Layout(ds, 0)[40] == File(9) && Layout(ds, 0)[41] == File(9)
  {
    assert ds[7..][6..] == ds[13..];
    ExampleLayoutTail(ds[13..]);
    ExampleLayoutMiddle(ds[7..]);
    ExampleLayoutHead(ds);
  }

  /** The free indices of the parsed example disk, handed over index by
      index. */
  lemma ExampleFreeIndicesOf(b: seq<Block>, q: seq<nat>)
    requires |b| == 42 && |q| == 14
    requires b[0] == File(0) && b[1] == File(0) && b[2] == Free && b[3] == Free && b[4] == Free && b[5] == File(1) && b[6] == File(1) && b[7] == File(1) && b[8] == Free && b[9] == Free && b[10] == Free
    requires b[11] == File(2) && b[12] == Free && b[13] == Free && b[14] == Free && b[15] == File(3) && b[16] == File(3) && b[17] == File(3) && b[18] == Free && b[19] == File(4) && b[20] == File(4) && b[21] == Free
    requires b[22] == File(5) && b[23] == File(5) && b[24] == File(5) && b[25] == File(5) && b[26] == Free && b[27] == File(6) && b[28] == File(6) && b[29] == File(6) && b[30] == File(6) && b[31] == Free && b[32] == File(7)
    requires b[33] == File(7) && b[34] == File(7) && b[35] == Free && b[36] == File(8) && b[37] == File(8) && b[38] == File(8) && b[39] == File(8) && b[40] == File(9) && b[41] == File(9)
    requires q[0] == 2 && q[1] == 3 && q[2] == 4 && q[3] == 8 && q[4] == 9 && q[5] == 10 && q[6] == 12 && q[7] == 13 && q[8] == 14 && q[9] == 18 && q[10] == 21 && q[11] == 26 && q[12] == 31 && q[13] == 35
    ensures FreeIndices(b) == q
  {
    forall j | 0 <= j < |q| ensures q[j] < |b| && b[q[j]] == Free {
      assert j == 0 || j == 1 || j == 2 || j == 3 || j == 4 || j == 5 || j == 6 || j == 7 || j == 8 || j == 9 || j == 10 || j == 11 || j == 12 || j == 13;
    }
    forall i | 0 <= i < |b| && b[i] == Free ensures i in q {
      assert i == 0 || i == 1 || i == 2 || i == 3 || i == 4 || i == 5 || i == 6 || i == 7 || i == 8 || i == 9 || i == 10 || i == 11 || i == 12 || i == 13 || i == 14 || i == 15 || i == 16 || i == 17 || i == 18 || i == 19 || i == 20 || i == 21 || i == 22 || i == 23 || i == 24 || i == 25 || i == 26 || i == 27 || i == 28 || i == 29 || i == 30 || i == 31 || i == 32 || i == 33 || i == 34 || i == 35 || i == 36 || i == 37 || i == 38 || i == 39 || i == 40 || i == 41;
    }
    forall j | 0 <= j < |q| - 1 ensures q[j] < q[j + 1] {
      assert j == 0 || j == 1 || j == 2 || j == 3 || j == 4 || j == 5 || j == 6 || j == 7 || j == 8 || j == 9 || j == 10 || j == 11 || j == 12;
    }
    FreeIndicesUnique(b, q);
  }

  /** The queue of the parsed example: its free indices, in order. */
  lemma ExampleParsedQueue(b: seq<Block>)
    requires |b| == 42
    requires b[0] == File(0) && b[1] == File(0) && b[2] == Free && b[3] == Free && b[4] == Free && b[5] == File(1) && b[6] == File(1) && b[7] == File(1) && b[8] == Free && b[9] == Free && b[10] == Free
    requires b[11] == File(2) && b[12] == Free && b[13] == Free && b[14] == Free && b[15] == File(3) && b[16] == File(3) && b[17] == File(3) && b[18] == Free && b[19] == File(4) && b[20] == File(4) && b[21] == Free
    requires b[22] == File(5) && b[23] == File(5) && b[24] == File(5) && b[25] == File(5) && b[26] == Free && b[27] == File(6) && b[28] == File(6) && b[29] == File(6) && b[30] == File(6) && b[31] == Free && b[32] == File(7)
    requires b[33] == File(7) && b[34] == File(7) && b[35] == Free && b[36] == File(8) && b[37] == File(8) && b[38] == File(8) && b[39] == File(8) && b[40] == File(9) && b[41] == File(9)
    ensures FreeIndices(b) == [2, 3, 4, 8, 9, 10, 12, 13, 14, 18, 21, 26, 31, 35]
  {
    ExampleFreeIndicesOf(b, [2, 3, 4, 8, 9, 10, 12, 13, 14, 18, 21, 26, 31, 35]);
  }

  /** The example map parses to the disk
      `00...111...2...333.44.5555.6666.777.888899`, with the last file block at 41 and every free index
      queued. */
  lemma ExampleParsed(s: string) returns (b: seq<Block>)
    requires SpellsExampleMap(s)
    ensures FromStr(s) == Some(FileSystem(b, 41, [2, 3, 4, 8, 9, 10, 12, 13, 14, 18, 21, 26, 31, 35])) && |b| == 42
    ensures b[0] == File(0) && b[1] == File(0) && b[2] == Free && b[3] == Free && b[4] == Free && b[5] == File(1) && b[6] == File(1) && b[7] == File(1) && b[8] == Free && b[9] == Free && b[10] == Free
    ensures b[11] == File(2) && b[12] == Free && b[13] == Free && b[14] == Free && b[15] == File(3) && b[16] == File(3) && b[17] == File(3) && b[18] == Free && b[19] == File(4) && b[20] == File(4) && b[21] == Free
    ensures b[22] == File(5) && b[23] == File(5) && b[24] == File(5) && b[25] == File(5) && b[26] == Free && b[27] == File(6) && b[28] == File(6) && b[29] == File(6) && b[30] == File(6) && b[31] == Free && b[32] == File(7)
    ensures b[33] == File(7) && b[34] == File(7) && b[35] == Free && b[36] == File(8) && b[37] == File(8) && b[38] == File(8) && b[39] == File(8) && b[40] == File(9) && b[41] == File(9)
  {
    ExampleDigitsOf(s);
    FromStrMeaning(s);
    b := Layout(DigitValues(s), 0);
    ExampleMapLayout(DigitValues(s));
    ExampleParsedQueue(b);
  }

  /** Step 1 of the example: the block at 41 moves to 2, and the disk
      becomes `009..111...2...333.44.5555.6666.777.88889.`. */
  lemma ExampleStep0(b: seq<Block>) returns (b': seq<Block>)
    requires |b| == 42
    requires b[0] == File(0) && b[1] == File(0) && b[2] == Free && b[3] == Free && b[4] == Free && b[5] == File(1) && b[6] == File(1) && b[7] == File(1) && b[8] == Free && b[9] == Free && b[10] == Free
    requires b[11] == File(2) && b[12] == Free && b[13] == Free && b[14] == Free && b[15] == File(3) && b[16] == File(3) && b[17] == File(3) && b[18] == Free && b[19] == File(4) && b[20] == File(4) && b[21] == Free
    requires b[22] == File(5) && b[23] == File(5) && b[24] == File(5) && b[25] == File(5) && b[26] == Free && b[27] == File(6) && b[28] == File(6) && b[29] == File(6) && b[30] == File(6) && b[31] == Free && b[32] == File(7)
    requires b[33] == File(7) && b[34] == File(7) && b[35] == Free && b[36] == File(8) && b[37] == File(8) && b[38] == File(8) && b[39] == File(8) && b[40] == File(9) && b[41] == File(9)
    ensures Valid(FileSystem(b, 41, [2, 3, 4, 8, 9, 10, 12, 13, 14, 18, 21, 26, 31, 35])) && !IsFragmented(FileSystem(b, 41, [2, 3, 4, 8, 9, 10, 12, 13, 14, 18, 21, 26, 31, 35]))
    ensures FragmentLastFileBlock(FileSystem(b, 41, [2, 3, 4, 8, 9, 10, 12, 13, 14, 18, 21, 26, 31, 35])) == Some(FileSystem(b', 40, [3, 4, 8, 9, 10, 12, 13, 14, 18, 21, 26, 31, 35, 41]))
    ensures |b'| == 42 && forall k | 40 < k < 42 :: b'[k] == Free
    ensures b'[0] == File(0) && b'[1] == File(0) && b'[2] == File(9) && b'[3] == Free && b'[4] == Free && b'[5] == File(1) && b'[6] == File(1) && b'[7] == File(1) && b'[8] == Free && b'[9] == Free && b'[10] == Free
    ensures b'[11] == File(2) && b'[12] == Free && b'[13] == Free && b'[14] == Free && b'[15] == File(3) && b'[16] == File(3) && b'[17] == File(3) && b'[18] == Free && b'[19] == File(4) && b'[20] == File(4) && b'[21] == Free
    ensures b'[22] == File(5) && b'[23] == File(5) && b'[24] == File(5) && b'[25] == File(5) && b'[26] == Free && b'[27] == File(6) && b'[28] == File(6) && b'[29] == File(6) && b'[30] == File(6) && b'[31] == Free && b'[32] == File(7)
    ensures b'[33] == File(7) && b'[34] == File(7) && b'[35] == Free && b'[36] == File(8) && b'[37] == File(8) && b'[38] == File(8) && b'[39] == File(8) && b'[40] == File(9) && b'[41] == Free
  {
    b' := b[2 := b[41]][41 := Free];
    BlockStep(b, 41, [2, 3, 4, 8, 9, 10, 12, 13, 14, 18, 21, 26, 31, 35], 40);
    assert [2, 3, 4, 8, 9, 10, 12, 13, 14, 18, 21, 26, 31, 35][1..] + [41] == [3, 4, 8, 9, 10, 12, 13, 14, 18, 21, 26, 31, 35, 41];
  }

  /** Step 2 of the example: the block at 40 moves to 3, and the disk
      becomes `0099.111...2...333.44.5555.6666.777.8888..`. */
  lemma ExampleStep1(b: seq<Block>) returns (b': seq<Block>)
    requires |b| == 42 && forall k | 40 < k < 42 :: b[k] == Free
    requires b[0] == File(0) && b[1] == File(0) && b[2] == File(9) && b[3] == Free && b[4] == Free && b[5] == File(1) && b[6] == File(1) && b[7] == File(1) && b[8] == Free && b[9] == Free && b[10] == Free
    requires b[11] == File(2) && b[12] == Free && b[13] == Free && b[14] == Free && b[15] == File(3) && b[16] == File(3) && b[17] == File(3) && b[18] == Free && b[19] == File(4) && b[20] == File(4) && b[21] == Free
    requires b[22] == File(5) && b[23] == File(5) && b[24] == File(5) && b[25] == File(5) && b[26] == Free && b[27] == File(6) && b[28] == File(6) && b[29] == File(6) && b[30] == File(6) && b[31] == Free && b[32] == File(7)
    requires b[33] == File(7) && b[34] == File(7) && b[35] == Free && b[36] == File(8) && b[37] == File(8) && b[38] == File(8) && b[39] == File(8) && b[40] == File(9) && b[41] == Free
    ensures Valid(FileSystem(b, 40, [3, 4, 8, 9, 10, 12, 13, 14, 18, 21, 26, 31, 35, 41])) && !IsFragmented(FileSystem(b, 40, [3, 4, 8, 9, 10, 12, 13, 14, 18, 21, 26, 31, 35, 41]))
    ensures FragmentLastFileBlock(FileSystem(b, 40, [3, 4, 8, 9, 10, 12, 13, 14, 18, 21, 26, 31, 35, 41])) == Some(FileSystem(b', 39, [4, 8, 9, 10, 12, 13, 14, 18, 21, 26, 31, 35, 41, 40]))
    ensures |b'| == 42 && forall k | 39 < k < 42 :: b'[k] == Free
    ensures b'[0] == File(0) && b'[1] == File(0) && b'[2] == File(9) && b'[3] == File(9) && b'[4] == Free && b'[5] == File(1) && b'[6] == File(1) && b'[7] == File(1) && b'[8] == Free && b'[9] == Free && b'[10] == Free
    ensures b'[11] == File(2) && b'[12] == Free && b'[13] == Free && b'[14] == Free && b'[15] == File(3) && b'[16] == File(3) && b'[17] == File(3) && b'[18] == Free && b'[19] == File(4) && b'[20] == File(4) && b'[21] == Free
    ensures b'[22] == File(5) && b'[23] == File(5) && b'[24] == File(5) && b'[25] == File(5) && b'[26] == Free && b'[27] == File(6) && b'[28] == File(6) && b'[29] == File(6) && b'[30] == File(6) && b'[31] == Free && b'[32] == File(7)
    ensures b'[33] == File(7) && b'[34] == File(7) && b'[35] == Free && b'[36] == File(8) && b'[37] == File(8) && b'[38] == File(8) && b'[39] == File(8) && b'[40] == Free && b'[41] == Free
  {
    b' := b[3 := b[40]][40 := Free];
    BlockStep(b, 40, [3, 4, 8, 9, 10, 12, 13, 14, 18, 21, 26, 31, 35, 41], 39);
    assert [3, 4, 8, 9, 10, 12, 13, 14, 18, 21, 26, 31, 35, 41][1..] + [40] == [4, 8, 9, 10, 12, 13, 14, 18, 21, 26, 31, 35, 41, 40];
  }

  /** Step 3 of the example: the block at 39 moves to 4, and the disk
      becomes `00998111...2...333.44.5555.6666.777.888...`. */
  lemma ExampleStep2(b: seq<Block>) returns (b': seq<Block>)
    requires |b| == 42 && forall k | 39 < k < 42 :: b[k] == Free
    requires b[0] == File(0) && b[1] == File(0) && b[2] == File(9) && b[3] == File(9) && b[4] == Free && b[5] == File(1) && b[6] == File(1) && b[7] == File(1) && b[8] == Free && b[9] == Free && b[10] == Free
    requires b[11] == File(2) && b[12] == Free && b[13] == Free && b[14] == Free && b[15] == File(3) && b[16] == File(3) && b[17] == File(3) && b[18] == Free && b[19] == File(4) && b[20] == File(4) && b[21] == Free
    requires b[22] == File(5) && b[23] == File(5) && b[24] == File(5) && b[25] == File(5) && b[26] == Free && b[27] == File(6) && b[28] == File(6) && b[29] == File(6) && b[30] == File(6) && b[31] == Free && b[32] == File(7)
    requires b[33] == File(7) && b[34] == File(7) && b[35] == Free && b[36] == File(8) && b[37] == File(8) && b[38] == File(8) && b[39] == File(8) && b[40] == Free && b[41] == Free
    ensures Valid(FileSystem(b, 39, [4, 8, 9, 10, 12, 13, 14, 18, 21, 26, 31, 35, 41, 40])) && !IsFragmented(FileSystem(b, 39, [4, 8, 9, 10, 12, 13, 14, 18, 21, 26, 31, 35, 41, 40]))
    ensures FragmentLastFileBlock(FileSystem(b, 39, [4, 8, 9, 10, 12, 13, 14, 18, 21, 26, 31, 35, 41, 40])) == Some(FileSystem(b', 38, [8, 9, 10, 12, 13, 14, 18, 21, 26, 31, 35, 41, 40, 39]))
    ensures |b'| == 42 && forall k | 38 < k < 42 :: b'[k] == Free
    ensures b'[0] == File(0) && b'[1] == File(0) && b'[2] == File(9) && b'[3] == File(9) && b'[4] == File(8) && b'[5] == File(1) && b'[6] == File(1) && b'[7] == File(1) && b'[8] == Free && b'[9] == Free && b'[10] == Free
    ensures b'[11] == File(2) && b'[12] == Free && b'[13] == Free && b'[14] == Free && b'[15] == File(3) && b'[16] == File(3) && b'[17] == File(3) && b'[18] == Free && b'[19] == File(4) && b'[20] == File(4) && b'[21] == Free
    ensures b'[22] == File(5) && b'[23] == File(5) && b'[24] == File(5) && b'[25] == File(5) && b'[26] == Free && b'[27] == File(6) && b'[28] == File(6) && b'[29] == File(6) && b'[30] == File(6) && b'[31] == Free && b'[32] == File(7)
    ensures b'[33] == File(7) && b'[34] == File(7) && b'[35] == Free && b'[36] == File(8) && b'[37] == File(8) && b'[38] == File(8) && b'[39] == Free && b'[40] == Free && b'[41] == Free
  {
    b' := b[4 := b[39]][39 := Free];
    BlockStep(b, 39, [4, 8, 9, 10, 12, 13, 14, 18, 21, 26, 31, 35, 41, 40], 38);
    assert [4, 8, 9, 10, 12, 13, 14, 18, 21, 26, 31, 35, 41, 40][1..] + [39] == [8, 9, 10, 12, 13, 14, 18, 21, 26, 31, 35, 41, 40, 39];
  }

  /** Step 4 of the example: the block at 38 moves to 8, and the disk
      becomes `009981118..2...333.44.5555.6666.777.88....`. */
  lemma ExampleStep3(b: seq<Block>) returns (b': seq<Block>)
    requires |b| == 42 && forall k | 38 < k < 42 :: b[k] == Free
    requires b[0] == File(0) && b[1] == File(0) && b[2] == File(9) && b[3] == File(9) && b[4] == File(8) && b[5] == File(1) && b[6] == File(1) && b[7] == File(1) && b[8] == Free && b[9] == Free && b[10] == Free
    requires b[11] == File(2) && b[12] == Free && b[13] == Free && b[14] == Free && b[15] == File(3) && b[16] == File(3) && b[17] == File(3) && b[18] == Free && b[19] == File(4) && b[20] == File(4) && b[21] == Free
    requires b[22] == File(5) && b[23] == File(5) && b[24] == File(5) && b[25] == File(5) && b[26] == Free && b[27] == File(6) && b[28] == File(6) && b[29] == File(6) && b[30] == File(6) && b[31] == Free && b[32] == File(7)
    requires b[33] == File(7) && b[34] == File(7) && b[35] == Free && b[36] == File(8) && b[37] == File(8) && b[38] == File(8) && b[39] == Free && b[40] == Free && b[41] == Free
    ensures Valid(FileSystem(b, 38, [8, 9, 10, 12, 13, 14, 18, 21, 26, 31, 35, 41, 40, 39])) && !IsFragmented(FileSystem(b, 38, [8, 9, 10, 12, 13, 14, 18, 21, 26, 31, 35, 41, 40, 39]))
    ensures FragmentLastFileBlock(FileSystem(b, 38, [8, 9, 10, 12, 13, 14, 18, 21, 26, 31, 35, 41, 40, 39])) == Some(FileSystem(b', 37, [9, 10, 12, 13, 14, 18, 21, 26, 31, 35, 41, 40, 39, 38]))
    ensures |b'| == 42 && forall k | 37 < k < 42 :: b'[k] == Free
    ensures b'[0] == File(0) && b'[1] == File(0) && b'[2] == File(9) && b'[3] == File(9) && b'[4] == File(8) && b'[5] == File(1) && b'[6] == File(1) && b'[7] == File(1) && b'[8] == File(8) && b'[9] == Free && b'[10] == Free
    ensures b'[11] == File(2) && b'[12] == Free && b'[13] == Free && b'[14] == Free && b'[15] == File(3) && b'[16] == File(3) && b'[17] == File(3) && b'[18] == Free && b'[19] == File(4) && b'[20] == File(4) && b'[21] == Free
    ensures b'[22] == File(5) && b'[23] == File(5) && b'[24] == File(5) && b'[25] == File(5) && b'[26] == Free && b'[27] == File(6) && b'[28] == File(6) && b'[29] == File(6) && b'[30] == File(6) && b'[31] == Free && b'[32] == File(7)
    ensures b'[33] == File(7) && b'[34] == File(7) && b'[35] == Free && b'[36] == File(8) && b'[37] == File(8) && b'[38] == Free && b'[39] == Free && b'[40] == Free && b'[41] == Free
  {
    b' := b[8 := b[38]][38 := Free];
    BlockStep(b, 38, [8, 9, 10, 12, 13, 14, 18, 21, 26, 31, 35, 41, 40, 39], 37);
    assert [8, 9, 10, 12, 13, 14, 18, 21, 26, 31, 35, 41, 40, 39][1..] + [38] == [9, 10, 12, 13, 14, 18, 21, 26, 31, 35, 41, 40, 39, 38];
  }

  /** Step 5 of the example: the block at 37 moves to 9, and the disk
      becomes `0099811188.2...333.44.5555.6666.777.8.....`. */
  lemma ExampleStep4(b: seq<Block>) returns (b': seq<Block>)
    requires |b| == 42 && forall k | 37 < k < 42 :: b[k] == Free
    requires b[0] == File(0) && b[1] == File(0) && b[2] == File(9) && b[3] == File(9) && b[4] == File(8) && b[5] == File(1) && b[6] == File(1) && b[7] == File(1) && b[8] == File(8) && b[9] == Free && b[10] == Free
    requires b[11] == File(2) && b[12] == Free && b[13] == Free && b[14] == Free && b[15] == File(3) && b[16] == File(3) && b[17] == File(3) && b[18] == Free && b[19] == File(4) && b[20] == File(4) && b[21] == Free
    requires b[22] == File(5) && b[23] == File(5) && b[24] == File(5) && b[25] == File(5) && b[26] == Free && b[27] == File(6) && b[28] == File(6) && b[29] == File(6) && b[30] == File(6) && b[31] == Free && b[32] == File(7)
    requires b[33] == File(7) && b[34] == File(7) && b[35] == Free && b[36] == File(8) && b[37] == File(8) && b[38] == Free && b[39] == Free && b[40] == Free && b[41] == Free
    ensures Valid(FileSystem(b, 37, [9, 10, 12, 13, 14, 18, 21, 26, 31, 35, 41, 40, 39, 38])) && !IsFragmented(FileSystem(b, 37, [9, 10, 12, 13, 14, 18, 21, 26, 31, 35, 41, 40, 39, 38]))
    ensures FragmentLastFileBlock(FileSystem(b, 37, [9, 10, 12, 13, 14, 18, 21, 26, 31, 35, 41, 40, 39, 38])) == Some(FileSystem(b', 36, [10, 12, 13, 14, 18, 21, 26, 31, 35, 41, 40, 39, 38, 37]))
    ensures |b'| == 42 && forall k | 36 < k < 42 :: b'[k] == Free
    ensures b'[0] == File(0) && b'[1] == File(0) && b'[2] == File(9) && b'[3] == File(9) && b'[4] == File(8) && b'[5] == File(1) && b'[6] == File(1) && b'[7] == File(1) && b'[8] == File(8) && b'[9] == File(8) && b'[10] == Free
    ensures b'[11] == File(2) && b'[12] == Free && b'[13] == Free && b'[14] == Free && b'[15] == File(3) && b'[16] == File(3) && b'[17] == File(3) && b'[18] == Free && b'[19] == File(4) && b'[20] == File(4) && b'[21] == Free
    ensures b'[22] == File(5) && b'[23] == File(5) && b'[24] == File(5) && b'[25] == File(5) && b'[26] == Free && b'[27] == File(6) && b'[28] == File(6) && b'[29] == File(6) && b'[30] == File(6) && b'[31] == Free && b'[32] == File(7)
    ensures b'[33] == File(7) && b'[34] == File(7) && b'[35] == Free && b'[36] == File(8) && b'[37] == Free && b'[38] == Free && b'[39] == Free && b'[40] == Free && b'[41] == Free
  {
    b' := b[9 := b[37]][37 := Free];
    BlockStep(b, 37, [9, 10, 12, 13, 14, 18, 21, 26, 31, 35, 41, 40, 39, 38], 36);
    assert [9, 10, 12, 13, 14, 18, 21, 26, 31, 35, 41, 40, 39, 38][1..] + [37] == [10, 12, 13, 14, 18, 21, 26, 31, 35, 41, 40, 39, 38, 37];
  }

  /** Step 6 of the example: the block at 36 moves to 10, and the disk
      becomes `009981118882...333.44.5555.6666.777.......`. */
  lemma ExampleStep5(b: seq<Block>) returns (b': seq<Block>)
    requires |b| == 42 && forall k | 36 < k < 42 :: b[k] == Free
    requires b[0] == File(0) && b[1] == File(0) && b[2] == File(9) && b[3] == File(9) && b[4] == File(8) && b[5] == File(1) && b[6] == File(1) && b[7] == File(1) && b[8] == File(8) && b[9] == File(8) && b[10] == Free
    requires b[11] == File(2) && b[12] == Free && b[13] == Free && b[14] == Free && b[15] == File(3) && b[16] == File(3) && b[17] == File(3) && b[18] == Free && b[19] == File(4) && b[20] == File(4) && b[21] == Free
    requires b[22] == File(5) && b[23] == File(5) && b[24] == File(5) && b[25] == File(5) && b[26] == Free && b[27] == File(6) && b[28] == File(6) && b[29] == File(6) && b[30] == File(6) && b[31] == Free && b[32] == File(7)
    requires b[33] == File(7) && b[34] == File(7) && b[35] == Free && b[36] == File(8) && b[37] == Free && b[38] == Free && b[39] == Free && b[40] == Free && b[41] == Free
    ensures Valid(FileSystem(b, 36, [10, 12, 13, 14, 18, 21, 26, 31, 35, 41, 40, 39, 38, 37])) && !IsFragmented(FileSystem(b, 36, [10, 12, 13, 14, 18, 21, 26, 31, 35, 41, 40, 39, 38, 37]))
    ensures FragmentLastFileBlock(FileSystem(b, 36, [10, 12, 13, 14, 18, 21, 26, 31, 35, 41, 40, 39, 38, 37])) == Some(FileSystem(b', 34, [12, 13, 14, 18, 21, 26, 31, 35, 41, 40, 39, 38, 37, 36]))
    ensures |b'| == 42 && forall k | 34 < k < 42 :: b'[k] == Free
    ensures b'[0] == File(0) && b'[1] == File(0) && b'[2] == File(9) && b'[3] == File(9) && b'[4] == File(8) && b'[5] == File(1) && b'[6] == File(1) && b'[7] == File(1) && b'[8] == File(8) && b'[9] == File(8) && b'[10] == File(8)
    ensures b'[11] == File(2) && b'[12] == Free && b'[13] == Free && b'[14] == Free && b'[15] == File(3) && b'[16] == File(3) && b'[17] == File(3) && b'[18] == Free && b'[19] == File(4) && b'[20] == File(4) && b'[21] == Free
    ensures b'[22] == File(5) && b'[23] == File(5) && b'[24] == File(5) && b'[25] == File(5) && b'[26] == Free && b'[27] == File(6) && b'[28] == File(6) && b'[29] == File(6) && b'[30] == File(6) && b'[31] == Free && b'[32] == File(7)
    ensures b'[33] == File(7) && b'[34] == File(7) && b'[35] == Free && b'[36] == Free && b'[37] == Free && b'[38] == Free && b'[39] == Free && b'[40] == Free && b'[41] == Free
  {
    b' := b[10 := b[36]][36 := Free];
    BlockStep(b, 36, [10, 12, 13, 14, 18, 21, 26, 31, 35, 41, 40, 39, 38, 37], 34);
    assert [10, 12, 13, 14, 18, 21, 26, 31, 35, 41, 40, 39, 38, 37][1..] + [36] == [12, 13, 14, 18, 21, 26, 31, 35, 41, 40, 39, 38, 37, 36];
  }

  /** Step 7 of the example: the block at 34 moves to 12, and the disk
      becomes `0099811188827..333.44.5555.6666.77........`. */
  lemma ExampleStep6(b: seq<Block>) returns (b': seq<Block>)
    requires |b| == 42 && forall k | 34 < k < 42 :: b[k] == Free
    requires b[0] == File(0) && b[1] == File(0) && b[2] == File(9) && b[3] == File(9) && b[4] == File(8) && b[5] == File(1) && b[6] == File(1) && b[7] == File(1) && b[8] == File(8) && b[9] == File(8) && b[10] == File(8)
    requires b[11] == File(2) && b[12] == Free && b[13] == Free && b[14] == Free && b[15] == File(3) && b[16] == File(3) && b[17] == File(3) && b[18] == Free && b[19] == File(4) && b[20] == File(4) && b[21] == Free
    requires b[22] == File(5) && b[23] == File(5) && b[24] == File(5) && b[25] == File(5) && b[26] == Free && b[27] == File(6) && b[28] == File(6) && b[29] == File(6) && b[30] == File(6) && b[31] == Free && b[32] == File(7)
    requires b[33] == File(7) && b[34] == File(7) && b[35] == Free && b[36] == Free && b[37] == Free && b[38] == Free && b[39] == Free && b[40] == Free && b[41] == Free
    ensures Valid(FileSystem(b, 34, [12, 13, 14, 18, 21, 26, 31, 35, 41, 40, 39, 38, 37, 36])) && !IsFragmented(FileSystem(b, 34, [12, 13, 14, 18, 21, 26, 31, 35, 41, 40, 39, 38, 37, 36]))
    ensures FragmentLastFileBlock(FileSystem(b, 34, [12, 13, 14, 18, 21, 26, 31, 35, 41, 40, 39, 38, 37, 36])) == Some(FileSystem(b', 33, [13, 14, 18, 21, 26, 31, 35, 41, 40, 39, 38, 37, 36, 34]))
    ensures |b'| == 42 && forall k | 33 < k < 42 :: b'[k] == Free
    ensures b'[0] == File(0) && b'[1] == File(0) && b'[2] == File(9) && b'[3] == File(9) && b'[4] == File(8) && b'[5] == File(1) && b'[6] == File(1) && b'[7] == File(1) && b'[8] == File(8) && b'[9] == File(8) && b'[10] == File(8)
    ensures b'[11] == File(2) && b'[12] == File(7) && b'[13] == Free && b'[14] == Free && b'[15] == File(3) && b'[16] == File(3) && b'[17] == File(3) && b'[18] == Free && b'[19] == File(4) && b'[20] == File(4) && b'[21] == Free
    ensures b'[22] == File(5) && b'[23] == File(5) && b'[24] == File(5) && b'[25] == File(5) && b'[26] == Free && b'[27] == File(6) && b'[28] == File(6) && b'[29] == File(6) && b'[30] == File(6) && b'[31] == Free && b'[32] == File(7)
    ensures b'[33] == File(7) && b'[34] == Free && b'[35] == Free && b'[36] == Free && b'[37] == Free && b'[38] == Free && b'[39] == Free && b'[40] == Free && b'[41] == Free
  {
    b' := b[12 := b[34]][34 := Free];
    BlockStep(b, 34, [12, 13, 14, 18, 21, 26, 31, 35, 41, 40, 39, 38, 37, 36], 33);
    assert [12, 13, 14, 18, 21, 26, 31, 35, 41, 40, 39, 38, 37, 36][1..] + [34] == [13, 14, 18, 21, 26, 31, 35, 41, 40, 39, 38, 37, 36, 34];
  }

  /** Step 8 of the example: the block at 33 moves to 13, and the disk
      becomes `00998111888277.333.44.5555.6666.7.........`. */
  lemma ExampleStep7(b: seq<Block>) returns (b': seq<Block>)
    requires |b| == 42 && forall k | 33 < k < 42 :: b[k] == Free
    requires b[0] == File(0) && b[1] == File(0) && b[2] == File(9) && b[3] == File(9) && b[4] == File(8) && b[5] == File(1) && b[6] == File(1) && b[7] == File(1) && b[8] == File(8) && b[9] == File(8) && b[10] == File(8)
    requires b[11] == File(2) && b[12] == File(7) && b[13] == Free && b[14] == Free && b[15] == File(3) && b[16] == File(3) && b[17] == File(3) && b[18] == Free && b[19] == File(4) && b[20] == File(4) && b[21] == Free
    requires b[22] == File(5) && b[23] == File(5) && b[24] == File(5) && b[25] == File(5) && b[26] == Free && b[27] == File(6) && b[28] == File(6) && b[29] == File(6) && b[30] == File(6) && b[31] == Free && b[32] == File(7)
    requires b[33] == File(7) && b[34] == Free && b[35] == Free && b[36] == Free && b[37] == Free && b[38] == Free && b[39] == Free && b[40] == Free && b[41] == Free
    ensures Valid(FileSystem(b, 33, [13, 14, 18, 21, 26, 31, 35, 41, 40, 39, 38, 37, 36, 34])) && !IsFragmented(FileSystem(b, 33, [13, 14, 18, 21, 26, 31, 35, 41, 40, 39, 38, 37, 36, 34]))
    ensures FragmentLastFileBlock(FileSystem(b, 33, [13, 14, 18, 21, 26, 31, 35, 41, 40, 39, 38, 37, 36, 34])) == Some(FileSystem(b', 32, [14, 18, 21, 26, 31, 35, 41, 40, 39, 38, 37, 36, 34, 33]))
    ensures |b'| == 42 && forall k | 32 < k < 42 :: b'[k] == Free
    ensures b'[0] == File(0) && b'[1] == File(0) && b'[2] == File(9) && b'[3] == File(9) && b'[4] == File(8) && b'[5] == File(1) && b'[6] == File(1) && b'[7] == File(1) && b'[8] == File(8) && b'[9] == File(8) && b'[10] == File(8)
    ensures b'[11] == File(2) && b'[12] == File(7) && b'[13] == File(7) && b'[14] == Free && b'[15] == File(3) && b'[16] == File(3) && b'[17] == File(3) && b'[18] == Free && b'[19] == File(4) && b'[20] == File(4) && b'[21] == Free
    ensures b'[22] == File(5) && b'[23] == File(5) && b'[24] == File(5) && b'[25] == File(5) && b'[26] == Free && b'[27] == File(6) && b'[28] == File(6) && b'[29] == File(6) && b'[30] == File(6) && b'[31] == Free && b'[32] == File(7)
    ensures b'[33] == Free && b'[34] == Free && b'[35] == Free && b'[36] == Free && b'[37] == Free && b'[38] == Free && b'[39] == Free && b'[40] == Free && b'[41] == Free
  {
    b' := b[13 := b[33]][33 := Free];
    BlockStep(b, 33, [13, 14, 18, 21, 26, 31, 35, 41, 40, 39, 38, 37, 36, 34], 32);
    assert [13, 14, 18, 21, 26, 31, 35, 41, 40, 39, 38, 37, 36, 34][1..] + [33] == [14, 18, 21, 26, 31, 35, 41, 40, 39, 38, 37, 36, 34, 33];
  }

  /** Step 9 of the example: the block at 32 moves to 14, and the disk
      becomes `009981118882777333.44.5555.6666...........`. */
  lemma ExampleStep8(b: seq<Block>) returns (b': seq<Block>)
    requires |b| == 42 && forall k | 32 < k < 42 :: b[k] == Free
    requires b[0] == File(0) && b[1] == File(0) && b[2] == File(9) && b[3] == File(9) && b[4] == File(8) && b[5] == File(1) && b[6] == File(1) && b[7] == File(1) && b[8] == File(8) && b[9] == File(8) && b[10] == File(8)
    requires b[11] == File(2) && b[12] == File(7) && b[13] == File(7) && b[14] == Free && b[15] == File(3) && b[16] == File(3) && b[17] == File(3) && b[18] == Free && b[19] == File(4) && b[20] == File(4) && b[21] == Free
    requires b[22] == File(5) && b[23] == File(5) && b[24] == File(5) && b[25] == File(5) && b[26] == Free && b[27] == File(6) && b[28] == File(6) && b[29] == File(6) && b[30] == File(6) && b[31] == Free && b[32] == File(7)
    requires b[33] == Free && b[34] == Free && b[35] == Free && b[36] == Free && b[37] == Free && b[38] == Free && b[39] == Free && b[40] == Free && b[41] == Free
    ensures Valid(FileSystem(b, 32, [14, 18, 21, 26, 31, 35, 41, 40, 39, 38, 37, 36, 34, 33])) && !IsFragmented(FileSystem(b, 32, [14, 18, 21, 26, 31, 35, 41, 40, 39, 38, 37, 36, 34, 33]))
    ensures FragmentLastFileBlock(FileSystem(b, 32, [14, 18, 21, 26, 31, 35, 41, 40, 39, 38, 37, 36, 34, 33])) == Some(FileSystem(b', 30, [18, 21, 26, 31, 35, 41, 40, 39, 38, 37, 36, 34, 33, 32]))
    ensures |b'| == 42 && forall k | 30 < k < 42 :: b'[k] == Free
    ensures b'[0] == File(0) && b'[1] == File(0) && b'[2] == File(9) && b'[3] == File(9) && b'[4] == File(8) && b'[5] == File(1) && b'[6] == File(1) && b'[7] == File(1) && b'[8] == File(8) && b'[9] == File(8) && b'[10] == File(8)
    ensures b'[11] == File(2) && b'[12] == File(7) && b'[13] == File(7) && b'[14] == File(7) && b'[15] == File(3) && b'[16] == File(3) && b'[17] == File(3) && b'[18] == Free && b'[19] == File(4) && b'[20] == File(4) && b'[21] == Free
    ensures b'[22] == File(5) && b'[23] == File(5) && b'[24] == File(5) && b'[25] == File(5) && b'[26] == Free && b'[27] == File(6) && b'[28] == File(6) && b'[29] == File(6) && b'[30] == File(6) && b'[31] == Free && b'[32] == Free
    ensures b'[33] == Free && b'[34] == Free && b'[35] == Free && b'[36] == Free && b'[37] == Free && b'[38] == Free && b'[39] == Free && b'[40] == Free && b'[41] == Free
  {
    b' := b[14 := b[32]][32 := Free];
    BlockStep(b, 32, [14, 18, 21, 26, 31, 35, 41, 40, 39, 38, 37, 36, 34, 33], 30);
    assert [14, 18, 21, 26, 31, 35, 41, 40, 39, 38, 37, 36, 34, 33][1..] + [32] == [18, 21, 26, 31, 35, 41, 40, 39, 38, 37, 36, 34, 33, 32];
  }

  /** Step 10 of the example: the block at 30 moves to 18, and the disk
      becomes `009981118882777333644.5555.666............`. */
  lemma ExampleStep9(b: seq<Block>) returns (b': seq<Block>)
    requires |b| == 42 && forall k | 30 < k < 42 :: b[k] == Free
    requires b[0] == File(0) && b[1] == File(0) && b[2] == File(9) && b[3] == File(9) && b[4] == File(8) && b[5] == File(1) && b[6] == File(1) && b[7] == File(1) && b[8] == File(8) && b[9] == File(8) && b[10] == File(8)
    requires b[11] == File(2) && b[12] == File(7) && b[13] == File(7) && b[14] == File(7) && b[15] == File(3) && b[16] == File(3) && b[17] == File(3) && b[18] == Free && b[19] == File(4) && b[20] == File(4) && b[21] == Free
    requires b[22] == File(5) && b[23] == File(5) && b[24] == File(5) && b[25] == File(5) && b[26] == Free && b[27] == File(6) && b[28] == File(6) && b[29] == File(6) && b[30] == File(6) && b[31] == Free && b[32] == Free
    requires b[33] == Free && b[34] == Free && b[35] == Free && b[36] == Free && b[37] == Free && b[38] == Free && b[39] == Free && b[40] == Free && b[41] == Free
    ensures Valid(FileSystem(b, 30, [18, 21, 26, 31, 35, 41, 40, 39, 38, 37, 36, 34, 33, 32])) && !IsFragmented(FileSystem(b, 30, [18, 21, 26, 31, 35, 41, 40, 39, 38, 37, 36, 34, 33, 32]))
    ensures FragmentLastFileBlock(FileSystem(b, 30, [18, 21, 26, 31, 35, 41, 40, 39, 38, 37, 36, 34, 33, 32])) == Some(FileSystem(b', 29, [21, 26, 31, 35, 41, 40, 39, 38, 37, 36, 34, 33, 32, 30]))
    ensures |b'| == 42 && forall k | 29 < k < 42 :: b'[k] == Free
    ensures b'[0] == File(0) && b'[1] == File(0) && b'[2] == File(9) && b'[3] == File(9) && b'[4] == File(8) && b'[5] == File(1) && b'[6] == File(1) && b'[7] == File(1) && b'[8] == File(8) && b'[9] == File(8) && b'[10] == File(8)
    ensures b'[11] == File(2) && b'[12] == File(7) && b'[13] == File(7) && b'[14] == File(7) && b'[15] == File(3) && b'[16] == File(3) && b'[17] == File(3) && b'[18] == File(6) && b'[19] == File(4) && b'[20] == File(4) && b'[21] == Free
    ensures b'[22] == File(5) && b'[23] == File(5) && b'[24] == File(5) && b'[25] == File(5) && b'[26] == Free && b'[27] == File(6) && b'[28] == File(6) && b'[29] == File(6) && b'[30] == Free && b'[31] == Free && b'[32] == Free
    ensures b'[33] == Free && b'[34] == Free && b'[35] == Free && b'[36] == Free && b'[37] == Free && b'[38] == Free && b'[39] == Free && b'[40] == Free && b'[41] == Free
  {
    b' := b[18 := b[30]][30 := Free];
    BlockStep(b, 30, [18, 21, 26, 31, 35, 41, 40, 39, 38, 37, 36, 34, 33, 32], 29);
    assert [18, 21, 26, 31, 35, 41, 40, 39, 38, 37, 36, 34, 33, 32][1..] + [30] == [21, 26, 31, 35, 41, 40, 39, 38, 37, 36, 34, 33, 32, 30];
  }

  /** Step 11 of the example: the block at 29 moves to 21, and the disk
      becomes `00998111888277733364465555.66.............`. */
  lemma ExampleStep10(b: seq<Block>) returns (b': seq<Block>)
    requires |b| == 42 && forall k | 29 < k < 42 :: b[k] == Free
    requires b[0] == File(0) && b[1] == File(0) && b[2] == File(9) && b[3] == File(9) && b[4] == File(8) && b[5] == File(1) && b[6] == File(1) && b[7] == File(1) && b[8] == File(8) && b[9] == File(8) && b[10] == File(8)
    requires b[11] == File(2) && b[12] == File(7) && b[13] == File(7) && b[14] == File(7) && b[15] == File(3) && b[16] == File(3) && b[17] == File(3) && b[18] == File(6) && b[19] == File(4) && b[20] == File(4) && b[21] == Free
    requires b[22] == File(5) && b[23] == File(5) && b[24] == File(5) && b[25] == File(5) && b[26] == Free && b[27] == File(6) && b[28] == File(6) && b[29] == File(6) && b[30] == Free && b[31] == Free && b[32] == Free
    requires b[33] == Free && b[34] == Free && b[35] == Free && b[36] == Free && b[37] == Free && b[38] == Free && b[39] == Free && b[40] == Free && b[41] == Free
    ensures Valid(FileSystem(b, 29, [21, 26, 31, 35, 41, 40, 39, 38, 37, 36, 34, 33, 32, 30])) && !IsFragmented(FileSystem(b, 29, [21, 26, 31, 35, 41, 40, 39, 38, 37, 36, 34, 33, 32, 30]))
    ensures FragmentLastFileBlock(FileSystem(b, 29, [21, 26, 31, 35, 41, 40, 39, 38, 37, 36, 34, 33, 32, 30])) == Some(FileSystem(b', 28, [26, 31, 35, 41, 40, 39, 38, 37, 36, 34, 33, 32, 30, 29]))
    ensures |b'| == 42 && forall k | 28 < k < 42 :: b'[k] == Free
    ensures b'[0] == File(0) && b'[1] == File(0) && b'[2] == File(9) && b'[3] == File(9) && b'[4] == File(8) && b'[5] == File(1) && b'[6] == File(1) && b'[7] == File(1) && b'[8] == File(8) && b'[9] == File(8) && b'[10] == File(8)
    ensures b'[11] == File(2) && b'[12] == File(7) && b'[13] == File(7) && b'[14] == File(7) && b'[15] == File(3) && b'[16] == File(3) && b'[17] == File(3) && b'[18] == File(6) && b'[19] == File(4) && b'[20] == File(4) && b'[21] == File(6)
    ensures b'[22] == File(5) && b'[23] == File(5) && b'[24] == File(5) && b'[25] == File(5) && b'[26] == Free && b'[27] == File(6) && b'[28] == File(6) && b'[29] == Free && b'[30] == Free && b'[31] == Free && b'[32] == Free
    ensures b'[33] == Free && b'[34] == Free && b'[35] == Free && b'[36] == Free && b'[37] == Free && b'[38] == Free && b'[39] == Free && b'[40] == Free && b'[41] == Free
  {
    b' := b[21 := b[29]][29 := Free];
    BlockStep(b, 29, [21, 26, 31, 35, 41, 40, 39, 38, 37, 36, 34, 33, 32, 30], 28);
    assert [21, 26, 31, 35, 41, 40, 39, 38, 37, 36, 34, 33, 32, 30][1..] + [29] == [26, 31, 35, 41, 40, 39, 38, 37, 36, 34, 33, 32, 30, 29];
  }

  /** Step 12 of the example: the block at 28 moves to 26, and the disk
      becomes `0099811188827773336446555566..............`. */
  lemma ExampleStep11(b: seq<Block>) returns (b': seq<Block>)
    requires |b| == 42 && forall k | 28 < k < 42 :: b[k] == Free
    requires b[0] == File(0) && b[1] == File(0) && b[2] == File(9) && b[3] == File(9) && b[4] == File(8) && b[5] == File(1) && b[6] == File(1) && b[7] == File(1) && b[8] == File(8) && b[9] == File(8) && b[10] == File(8)
    requires b[11] == File(2) && b[12] == File(7) && b[13] == File(7) && b[14] == File(7) && b[15] == File(3) && b[16] == File(3) && b[17] == File(3) && b[18] == File(6) && b[19] == File(4) && b[20] == File(4) && b[21] == File(6)
    requires b[22] == File(5) && b[23] == File(5) && b[24] == File(5) && b[25] == File(5) && b[26] == Free && b[27] == File(6) && b[28] == File(6) && b[29] == Free && b[30] == Free && b[31] == Free && b[32] == Free
    requires b[33] == Free && b[34] == Free && b[35] == Free && b[36] == Free && b[37] == Free && b[38] == Free && b[39] == Free && b[40] == Free && b[41] == Free
    ensures Valid(FileSystem(b, 28, [26, 31, 35, 41, 40, 39, 38, 37, 36, 34, 33, 32, 30, 29])) && !IsFragmented(FileSystem(b, 28, [26, 31, 35, 41, 40, 39, 38, 37, 36, 34, 33, 32, 30, 29]))
    ensures FragmentLastFileBlock(FileSystem(b, 28, [26, 31, 35, 41, 40, 39, 38, 37, 36, 34, 33, 32, 30, 29])) == Some(FileSystem(b', 27, [31, 35, 41, 40, 39, 38, 37, 36, 34, 33, 32, 30, 29, 28]))
    ensures |b'| == 42 && forall k | 27 < k < 42 :: b'[k] == Free
    ensures b'[0] == File(0) && b'[1] == File(0) && b'[2] == File(9) && b'[3] == File(9) && b'[4] == File(8) && b'[5] == File(1) && b'[6] == File(1) && b'[7] == File(1) && b'[8] == File(8) && b'[9] == File(8) && b'[10] == File(8)
    ensures b'[11] == File(2) && b'[12] == File(7) && b'[13] == File(7) && b'[14] == File(7) && b'[15] == File(3) && b'[16] == File(3) && b'[17] == File(3) && b'[18] == File(6) && b'[19] == File(4) && b'[20] == File(4) && b'[21] == File(6)
    ensures b'[22] == File(5) && b'[23] == File(5) && b'[24] == File(5) && b'[25] == File(5) && b'[26] == File(6) && b'[27] == File(6) && b'[28] == Free && b'[29] == Free && b'[30] == Free && b'[31] == Free && b'[32] == Free
    ensures b'[33] == Free && b'[34] == Free && b'[35] == Free && b'[36] == Free && b'[37] == Free && b'[38] == Free && b'[39] == Free && b'[40] == Free && b'[41] == Free
  {
    b' := b[26 := b[28]][28 := Free];
    BlockStep(b, 28, [26, 31, 35, 41, 40, 39, 38, 37, 36, 34, 33, 32, 30, 29], 27);
    assert [26, 31, 35, 41, 40, 39, 38, 37, 36, 34, 33, 32, 30, 29][1..] + [28] == [31, 35, 41, 40, 39, 38, 37, 36, 34, 33, 32, 30, 29, 28];
  }

  /** The compacted example: fragmented, so the run ends here. */
  lemma ExampleRunFrom12(b: seq<Block>) returns (states: seq<FileSystem>)
    requires |b| == 42 && forall k | 27 < k < 42 :: b[k] == Free
    requires b[0] == File(0) && b[1] == File(0) && b[2] == File(9) && b[3] == File(9) && b[4] == File(8) && b[5] == File(1) && b[6] == File(1) && b[7] == File(1) && b[8] == File(8) && b[9] == File(8) && b[10] == File(8)
    requires b[11] == File(2) && b[12] == File(7) && b[13] == File(7) && b[14] == File(7) && b[15] == File(3) && b[16] == File(3) && b[17] == File(3) && b[18] == File(6) && b[19] == File(4) && b[20] == File(4) && b[21] == File(6)
    requires b[22] == File(5) && b[23] == File(5) && b[24] == File(5) && b[25] == File(5) && b[26] == File(6) && b[27] == File(6)
    ensures |states| == 1 && states[0] == FileSystem(b, 27, [31, 35, 41, 40, 39, 38, 37, 36, 34, 33, 32, 30, 29, 28]) && IsRun(states)
    ensures Valid(states[0]) && IsFragmented(states[0])
    ensures states[0].lastFileBlock == 27 && states[0].freeBlocks == [31, 35, 41, 40, 39, 38, 37, 36, 34, 33, 32, 30, 29, 28]
    ensures |states[0].blocks| == 42 && forall k | 27 < k < 42 :: states[0].blocks[k] == Free
    ensures states[0].blocks[0] == File(0) && states[0].blocks[1] == File(0) && states[0].blocks[2] == File(9) && states[0].blocks[3] == File(9) && states[0].blocks[4] == File(8) && states[0].blocks[5] == File(1) && states[0].blocks[6] == File(1) && states[0].blocks[7] == File(1) && states[0].blocks[8] == File(8) && states[0].blocks[9] == File(8) && states[0].blocks[10] == File(8)
    ensures states[0].blocks[11] == File(2) && states[0].blocks[12] == File(7) && states[0].blocks[13] == File(7) && states[0].blocks[14] == File(7) && states[0].blocks[15] == File(3) && states[0].blocks[16] == File(3) && states[0].blocks[17] == File(3) && states[0].blocks[18] == File(6) && states[0].blocks[19] == File(4) && states[0].blocks[20] == File(4) && states[0].blocks[21] == File(6)
    ensures states[0].blocks[22] == File(5) && states[0].blocks[23] == File(5) && states[0].blocks[24] == File(5) && states[0].blocks[25] == File(5) && states[0].blocks[26] == File(6) && states[0].blocks[27] == File(6)
  {
    states := [FileSystem(b, 27, [31, 35, 41, 40, 39, 38, 37, 36, 34, 33, 32, 30, 29, 28])];
  }

  /** The run of the example from `00998111888277733364465555.66.............` on:
      1 steps to the compacted disk. */
  lemma ExampleRunFrom11(b: seq<Block>) returns (states: seq<FileSystem>)
    requires |b| == 42 && forall k | 28 < k < 42 :: b[k] == Free
    requires b[0] == File(0) && b[1] == File(0) && b[2] == File(9) && b[3] == File(9) && b[4] == File(8) && b[5] == File(1) && b[6] == File(1) && b[7] == File(1) && b[8] == File(8) && b[9] == File(8) && b[10] == File(8)
    requires b[11] == File(2) && b[12] == File(7) && b[13] == File(7) && b[14] == File(7) && b[15] == File(3) && b[16] == File(3) && b[17] == File(3) && b[18] == File(6) && b[19] == File(4) && b[20] == File(4) && b[21] == File(6)
    requires b[22] == File(5) && b[23] == File(5) && b[24] == File(5) && b[25] == File(5) && b[26] == Free && b[27] == File(6) && b[28] == File(6) && b[29] == Free && b[30] == Free && b[31] == Free && b[32] == Free
    requires b[33] == Free && b[34] == Free && b[35] == Free && b[36] == Free && b[37] == Free && b[38] == Free && b[39] == Free && b[40] == Free && b[41] == Free
    ensures |states| == 2 && states[0] == FileSystem(b, 28, [26, 31, 35, 41, 40, 39, 38, 37, 36, 34, 33, 32, 30, 29]) && IsRun(states)
    ensures Valid(states[1]) && IsFragmented(states[1])
    ensures states[1].lastFileBlock == 27 && states[1].freeBlocks == [31, 35, 41, 40, 39, 38, 37, 36, 34, 33, 32, 30, 29, 28]
    ensures |states[1].blocks| == 42 && forall k | 27 < k < 42 :: states[1].blocks[k] == Free
    ensures states[1].blocks[0] == File(0) && states[1].blocks[1] == File(0) && states[1].blocks[2] == File(9) && states[1].blocks[3] == File(9) && states[1].blocks[4] == File(8) && states[1].blocks[5] == File(1) && states[1].blocks[6] == File(1) && states[1].blocks[7] == File(1) && states[1].blocks[8] == File(8) && states[1].blocks[9] == File(8) && states[1].blocks[10] == File(8)
    ensures states[1].blocks[11] == File(2) && states[1].blocks[12] == File(7) && states[1].blocks[13] == File(7) && states[1].blocks[14] == File(7) && states[1].blocks[15] == File(3) && states[1].blocks[16] == File(3) && states[1].blocks[17] == File(3) && states[1].blocks[18] == File(6) && states[1].blocks[19] == File(4) && states[1].blocks[20] == File(4) && states[1].blocks[21] == File(6)
    ensures states[1].blocks[22] == File(5) && states[1].blocks[23] == File(5) && states[1].blocks[24] == File(5) && states[1].blocks[25] == File(5) && states[1].blocks[26] == File(6) && states[1].blocks[27] == File(6)
  {
    var b' := ExampleStep11(b);
    var rest := ExampleRunFrom12(b');
    RunCons(FileSystem(b, 28, [26, 31, 35, 41, 40, 39, 38, 37, 36, 34, 33, 32, 30, 29]), rest);
    states := [FileSystem(b, 28, [26, 31, 35, 41, 40, 39, 38, 37, 36, 34, 33, 32, 30, 29])] + rest;
    assert states[1] == rest[0];
  }

  /** The run of the example from `009981118882777333644.5555.666............` on:
      2 steps to the compacted disk. */
  lemma ExampleRunFrom10(b: seq<Block>) returns (states: seq<FileSystem>)
    requires |b| == 42 && forall k | 29 < k < 42 :: b[k] == Free
    requires b[0] == File(0) && b[1] == File(0) && b[2] == File(9) && b[3] == File(9) && b[4] == File(8) && b[5] == File(1) && b[6] == File(1) && b[7] == File(1) && b[8] == File(8) && b[9] == File(8) && b[10] == File(8)
    requires b[11] == File(2) && b[12] == File(7) && b[13] == File(7) && b[14] == File(7) && b[15] == File(3) && b[16] == File(3) && b[17] == File(3) && b[18] == File(6) && b[19] == File(4) && b[20] == File(4) && b[21] == Free
    requires b[22] == File(5) && b[23] == File(5) && b[24] == File(5) && b[25] == File(5) && b[26] == Free && b[27] == File(6) && b[28] == File(6) && b[29] == File(6) && b[30] == Free && b[31] == Free && b[32] == Free
    requires b[33] == Free && b[34] == Free && b[35] == Free && b[36] == Free && b[37] == Free && b[38] == Free && b[39] == Free && b[40] == Free && b[41] == Free
    ensures |states| == 3 && states[0] == FileSystem(b, 29, [21, 26, 31, 35, 41, 40, 39, 38, 37, 36, 34, 33, 32, 30]) && IsRun(states)
    ensures Valid(states[2]) && IsFragmented(states[2])
    ensures states[2].lastFileBlock == 27 && states[2].freeBlocks == [31, 35, 41, 40, 39, 38, 37, 36, 34, 33, 32, 30, 29, 28]
    ensures |states[2].blocks| == 42 && forall k | 27 < k < 42 :: states[2].blocks[k] == Free
    ensures states[2].blocks[0] == File(0) && states[2].blocks[1] == File(0) && states[2].blocks[2] == File(9) && states[2].blocks[3] == File(9) && states[2].blocks[4] == File(8) && states[2].blocks[5] == File(1) && states[2].blocks[6] == File(1) && states[2].blocks[7] == File(1) && states[2].blocks[8] == File(8) && states[2].blocks[9] == File(8) && states[2].blocks[10] == File(8)
    ensures states[2].blocks[11] == File(2) && states[2].blocks[12] == File(7) && states[2].blocks[13] == File(7) && states[2].blocks[14] == File(7) && states[2].blocks[15] == File(3) && states[2].blocks[16] == File(3) && states[2].blocks[17] == File(3) && states[2].blocks[18] == File(6) && states[2].blocks[19] == File(4) && states[2].blocks[20] == File(4) && states[2].blocks[21] == File(6)
    ensures states[2].blocks[22] == File(5) && states[2].blocks[23] == File(5) && states[2].blocks[24] == File(5) && states[2].blocks[25] == File(5) && states[2].blocks[26] == File(6) && states[2].blocks[27] == File(6)
  {
    var b' := ExampleStep10(b);
    var rest := ExampleRunFrom11(b');
    RunCons(FileSystem(b, 29, [21, 26, 31, 35, 41, 40, 39, 38, 37, 36, 34, 33, 32, 30]), rest);
    states := [FileSystem(b, 29, [21, 26, 31, 35, 41, 40, 39, 38, 37, 36, 34, 33, 32, 30])] + rest;
    assert states[2] == rest[1];
  }

  /** The run of the example from `009981118882777333.44.5555.6666...........` on:
      3 steps to the compacted disk. */
  lemma ExampleRunFrom9(b: seq<Block>) returns (states: seq<FileSystem>)
    requires |b| == 42 && forall k | 30 < k < 42 :: b[k] == Free
    requires b[0] == File(0) && b[1] == File(0) && b[2] == File(9) && b[3] == File(9) && b[4] == File(8) && b[5] == File(1) && b[6] == File(1) && b[7] == File(1) && b[8] == File(8) && b[9] == File(8) && b[10] == File(8)
    requires b[11] == File(2) && b[12] == File(7) && b[13] == File(7) && b[14] == File(7) && b[15] == File(3) && b[16] == File(3) && b[17] == File(3) && b[18] == Free && b[19] == File(4) && b[20] == File(4) && b[21] == Free
    requires b[22] == File(5) && b[23] == File(5) && b[24] == File(5) && b[25] == File(5) && b[26] == Free && b[27] == File(6) && b[28] == File(6) && b[29] == File(6) && b[30] == File(6) && b[31] == Free && b[32] == Free
    requires b[33] == Free && b[34] == Free && b[35] == Free && b[36] == Free && b[37] == Free && b[38] == Free && b[39] == Free && b[40] == Free && b[41] == Free
    ensures |states| == 4 && states[0] == FileSystem(b, 30, [18, 21, 26, 31, 35, 41, 40, 39, 38, 37, 36, 34, 33, 32]) && IsRun(states)
    ensures Valid(states[3]) && IsFragmented(states[3])
    ensures states[3].lastFileBlock == 27 && states[3].freeBlocks == [31, 35, 41, 40, 39, 38, 37, 36, 34, 33, 32, 30, 29, 28]
    ensures |states[3].blocks| == 42 && forall k | 27 < k < 42 :: states[3].blocks[k] == Free
    ensures states[3].blocks[0] == File(0) && states[3].blocks[1] == File(0) && states[3].blocks[2] == File(9) && states[3].blocks[3] == File(9) && states[3].blocks[4] == File(8) && states[3].blocks[5] == File(1) && states[3].blocks[6] == File(1) && states[3].blocks[7] == File(1) && states[3].blocks[8] == File(8) && states[3].blocks[9] == File(8) && states[3].blocks[10] == File(8)
    ensures states[3].blocks[11] == File(2) && states[3].blocks[12] == File(7) && states[3].blocks[13] == File(7) && states[3].blocks[14] == File(7) && states[3].blocks[15] == File(3) && states[3].blocks[16] == File(3) && states[3].blocks[17] == File(3) && states[3].blocks[18] == File(6) && states[3].blocks[19] == File(4) && states[3].blocks[20] == File(4) && states[3].blocks[21] == File(6)
    ensures states[3].blocks[22] == File(5) && states[3].blocks[23] == File(5) && states[3].blocks[24] == File(5) && states[3].blocks[25] == File(5) && states[3].blocks[26] == File(6) && states[3].blocks[27] == File(6)
  {
    var b' := ExampleStep9(b);
    var rest := ExampleRunFrom10(b');
    RunCons(FileSystem(b, 30, [18, 21, 26, 31, 35, 41, 40, 39, 38, 37, 36, 34, 33, 32]), rest);
    states := [FileSystem(b, 30, [18, 21, 26, 31, 35, 41, 40, 39, 38, 37, 36, 34, 33, 32])] + rest;
    assert states[3] == rest[2];
  }

  /** The run of the example from `00998111888277.333.44.5555.6666.7.........` on:
      4 steps to the compacted disk. */
  lemma ExampleRunFrom8(b: seq<Block>) returns (states: seq<FileSystem>)
    requires |b| == 42 && forall k | 32 < k < 42 :: b[k] == Free
    requires b[0] == File(0) && b[1] == File(0) && b[2] == File(9) && b[3] == File(9) && b[4] == File(8) && b[5] == File(1) && b[6] == File(1) && b[7] == File(1) && b[8] == File(8) && b[9] == File(8) && b[10] == File(8)
    requires b[11] == File(2) && b[12] == File(7) && b[13] == File(7) && b[14] == Free && b[15] == File(3) && b[16] == File(3) && b[17] == File(3) && b[18] == Free && b[19] == File(4) && b[20] == File(4) && b[21] == Free
    requires b[22] == File(5) && b[23] == File(5) && b[24] == File(5) && b[25] == File(5) && b[26] == Free && b[27] == File(6) && b[28] == File(6) && b[29] == File(6) && b[30] == File(6) && b[31] == Free && b[32] == File(7)
    requires b[33] == Free && b[34] == Free && b[35] == Free && b[36] == Free && b[37] == Free && b[38] == Free && b[39] == Free && b[40] == Free && b[41] == Free
    ensures |states| == 5 && states[0] == FileSystem(b, 32, [14, 18, 21, 26, 31, 35, 41, 40, 39, 38, 37, 36, 34, 33]) && IsRun(states)
    ensures Valid(states[4]) && IsFragmented(states[4])
    ensures states[4].lastFileBlock == 27 && states[4].freeBlocks == [31, 35, 41, 40, 39, 38, 37, 36, 34, 33, 32, 30, 29, 28]
    ensures |states[4].blocks| == 42 && forall k | 27 < k < 42 :: states[4].blocks[k] == Free
    ensures states[4].blocks[0] == File(0) && states[4].blocks[1] == File(0) && states[4].blocks[2] == File(9) && states[4].blocks[3] == File(9) && states[4].blocks[4] == File(8) && states[4].blocks[5] == File(1) && states[4].blocks[6] == File(1) && states[4].blocks[7] == File(1) && states[4].blocks[8] == File(8) && states[4].blocks[9] == File(8) && states[4].blocks[10] == File(8)
    ensures states[4].blocks[11] == File(2) && states[4].blocks[12] == File(7) && states[4].blocks[13] == File(7) && states[4].blocks[14] == File(7) && states[4].blocks[15] == File(3) && states[4].blocks[16] == File(3) && states[4].blocks[17] == File(3) && states[4].blocks[18] == File(6) && states[4].blocks[19] == File(4) && states[4].blocks[20] == File(4) && states[4].blocks[21] == File(6)
    ensures states[4].blocks[22] == File(5) && states[4].blocks[23] == File(5) && states[4].blocks[24] == File(5) && states[4].blocks[25] == File(5) && states[4].blocks[26] == File(6) && states[4].blocks[27] == File(6)
  {
    var b' := ExampleStep8(b);
    var rest := ExampleRunFrom9(b');
    RunCons(FileSystem(b, 32, [14, 18, 21, 26, 31, 35, 41, 40, 39, 38, 37, 36, 34, 33]), rest);
    states := [FileSystem(b, 32, [14, 18, 21, 26, 31, 35, 41, 40, 39, 38, 37, 36, 34, 33])] + rest;
    assert states[4] == rest[3];
  }

  /** The run of the example from `0099811188827..333.44.5555.6666.77........` on:
      5 steps to the compacted disk. */
  lemma ExampleRunFrom7(b: seq<Block>) returns (states: seq<FileSystem>)
    requires |b| == 42 && forall k | 33 < k < 42 :: b[k] == Free
    requires b[0] == File(0) && b[1] == File(0) && b[2] == File(9) && b[3] == File(9) && b[4] == File(8) && b[5] == File(1) && b[6] == File(1) && b[7] == File(1) && b[8] == File(8) && b[9] == File(8) && b[10] == File(8)
    requires b[11] == File(2) && b[12] == File(7) && b[13] == Free && b[14] == Free && b[15] == File(3) && b[16] == File(3) && b[17] == File(3) && b[18] == Free && b[19] == File(4) && b[20] == File(4) && b[21] == Free
    requires b[22] == File(5) && b[23] == File(5) && b[24] == File(5) && b[25] == File(5) && b[26] == Free && b[27] == File(6) && b[28] == File(6) && b[29] == File(6) && b[30] == File(6) && b[31] == Free && b[32] == File(7)
    requires b[33] == File(7) && b[34] == Free && b[35] == Free && b[36] == Free && b[37] == Free && b[38] == Free && b[39] == Free && b[40] == Free && b[41] == Free
    ensures |states| == 6 && states[0] == FileSystem(b, 33, [13, 14, 18, 21, 26, 31, 35, 41, 40, 39, 38, 37, 36, 34]) && IsRun(states)
    ensures Valid(states[5]) && IsFragmented(states[5])
    ensures states[5].lastFileBlock == 27 && states[5].freeBlocks == [31, 35, 41, 40, 39, 38, 37, 36, 34, 33, 32, 30, 29, 28]
    ensures |states[5].blocks| == 42 && forall k | 27 < k < 42 :: states[5].blocks[k] == Free
    ensures states[5].blocks[0] == File(0) && states[5].blocks[1] == File(0) && states[5].blocks[2] == File(9) && states[5].blocks[3] == File(9) && states[5].blocks[4] == File(8) && states[5].blocks[5] == File(1) && states[5].blocks[6] == File(1) && states[5].blocks[7] == File(1) && states[5].blocks[8] == File(8) && states[5].blocks[9] == File(8) && states[5].blocks[10] == File(8)
    ensures states[5].blocks[11] == File(2) && states[5].blocks[12] == File(7) && states[5].blocks[13] == File(7) && states[5].blocks[14] == File(7) && states[5].blocks[15] == File(3) && states[5].blocks[16] == File(3) && states[5].blocks[17] == File(3) && states[5].blocks[18] == File(6) && states[5].blocks[19] == File(4) && states[5].blocks[20] == File(4) && states[5].blocks[21] == File(6)
    ensures states[5].blocks[22] == File(5) && states[5].blocks[23] == File(5) && states[5].blocks[24] == File(5) && states[5].blocks[25] == File(5) && states[5].blocks[26] == File(6) && states[5].blocks[27] == File(6)
  {
    var b' := ExampleStep7(b);
    var rest := ExampleRunFrom8(b');
    RunCons(FileSystem(b, 33, [13, 14, 18, 21, 26, 31, 35, 41, 40, 39, 38, 37, 36, 34]), rest);
    states := [FileSystem(b, 33, [13, 14, 18, 21, 26, 31, 35, 41, 40, 39, 38, 37, 36, 34])] + rest;
    assert states[5] == rest[4];
  }

  /** The run of the example from `009981118882...333.44.5555.6666.777.......` on:
      6 steps to the compacted disk. */
  lemma ExampleRunFrom6(b: seq<Block>) returns (states: seq<FileSystem>)
    requires |b| == 42 && forall k | 34 < k < 42 :: b[k] == Free
    requires b[0] == File(0) && b[1] == File(0) && b[2] == File(9) && b[3] == File(9) && b[4] == File(8) && b[5] == File(1) && b[6] == File(1) && b[7] == File(1) && b[8] == File(8) && b[9] == File(8) && b[10] == File(8)
    requires b[11] == File(2) && b[12] == Free && b[13] == Free && b[14] == Free && b[15] == File(3) && b[16] == File(3) && b[17] == File(3) && b[18] == Free && b[19] == File(4) && b[20] == File(4) && b[21] == Free
    requires b[22] == File(5) && b[23] == File(5) && b[24] == File(5) && b[25] == File(5) && b[26] == Free && b[27] == File(6) && b[28] == File(6) && b[29] == File(6) && b[30] == File(6) && b[31] == Free && b[32] == File(7)
    requires b[33] == File(7) && b[34] == File(7) && b[35] == Free && b[36] == Free && b[37] == Free && b[38] == Free && b[39] == Free && b[40] == Free && b[41] == Free
    ensures |states| == 7 && states[0] == FileSystem(b, 34, [12, 13, 14, 18, 21, 26, 31, 35, 41, 40, 39, 38, 37, 36]) && IsRun(states)
    ensures Valid(states[6]) && IsFragmented(states[6])
    ensures states[6].lastFileBlock == 27 && states[6].freeBlocks == [31, 35, 41, 40, 39, 38, 37, 36, 34, 33, 32, 30, 29, 28]
    ensures |states[6].blocks| == 42 && forall k | 27 < k < 42 :: states[6].blocks[k] == Free
    ensures states[6].blocks[0] == File(0) && states[6].blocks[1] == File(0) && states[6].blocks[2] == File(9) && states[6].blocks[3] == File(9) && states[6].blocks[4] == File(8) && states[6].blocks[5] == File(1) && states[6].blocks[6] == File(1) && states[6].blocks[7] == File(1) && states[6].blocks[8] == File(8) && states[6].blocks[9] == File(8) && states[6].blocks[10] == File(8)
    ensures states[6].blocks[11] == File(2) && states[6].blocks[12] == File(7) && states[6].blocks[13] == File(7) && states[6].blocks[14] == File(7) && states[6].blocks[15] == File(3) && states[6].blocks[16] == File(3) && states[6].blocks[17] == File(3) && states[6].blocks[18] == File(6) && states[6].blocks[19] == File(4) && states[6].blocks[20] == File(4) && states[6].blocks[21] == File(6)
    ensures states[6].blocks[22] == File(5) && states[6].blocks[23] == File(5) && states[6].blocks[24] == File(5) && states[6].blocks[25] == File(5) && states[6].blocks[26] == File(6) && states[6].blocks[27] == File(6)
  {
    var b' := ExampleStep6(b);
    var rest := ExampleRunFrom7(b');
    RunCons(FileSystem(b, 34, [12, 13, 14, 18, 21, 26, 31, 35, 41, 40, 39, 38, 37, 36]), rest);
    states := [FileSystem(b, 34, [12, 13, 14, 18, 21, 26, 31, 35, 41, 40, 39, 38, 37, 36])] + rest;
    assert states[6] == rest[5];
  }

  /** The run of the example from `0099811188.2...333.44.5555.6666.777.8.....` on:
      7 steps to the compacted disk. */
  lemma ExampleRunFrom5(b: seq<Block>) returns (states: seq<FileSystem>)
    requires |b| == 42 && forall k | 36 < k < 42 :: b[k] == Free
    requires b[0] == File(0) && b[1] == File(0) && b[2] == File(9) && b[3] == File(9) && b[4] == File(8) && b[5] == File(1) && b[6] == File(1) && b[7] == File(1) && b[8] == File(8) && b[9] == File(8) && b[10] == Free
    requires b[11] == File(2) && b[12] == Free && b[13] == Free && b[14] == Free && b[15] == File(3) && b[16] == File(3) && b[17] == File(3) && b[18] == Free && b[19] == File(4) && b[20] == File(4) && b[21] == Free
    requires b[22] == File(5) && b[23] == File(5) && b[24] == File(5) && b[25] == File(5) && b[26] == Free && b[27] == File(6) && b[28] == File(6) && b[29] == File(6) && b[30] == File(6) && b[31] == Free && b[32] == File(7)
    requires b[33] == File(7) && b[34] == File(7) && b[35] == Free && b[36] == File(8) && b[37] == Free && b[38] == Free && b[39] == Free && b[40] == Free && b[41] == Free
    ensures |states| == 8 && states[0] == FileSystem(b, 36, [10, 12, 13, 14, 18, 21, 26, 31, 35, 41, 40, 39, 38, 37]) && IsRun(states)
    ensures Valid(states[7]) && IsFragmented(states[7])
    ensures states[7].lastFileBlock == 27 && states[7].freeBlocks == [31, 35, 41, 40, 39, 38, 37, 36, 34, 33, 32, 30, 29, 28]
    ensures |states[7].blocks| == 42 && forall k | 27 < k < 42 :: states[7].blocks[k] == Free
    ensures states[7].blocks[0] == File(0) && states[7].blocks[1] == File(0) && states[7].blocks[2] == File(9) && states[7].blocks[3] == File(9) && states[7].blocks[4] == File(8) && states[7].blocks[5] == File(1) && states[7].blocks[6] == File(1) && states[7].blocks[7] == File(1) && states[7].blocks[8] == File(8) && states[7].blocks[9] == File(8) && states[7].blocks[10] == File(8)
    ensures states[7].blocks[11] == File(2) && states[7].blocks[12] == File(7) && states[7].blocks[13] == File(7) && states[7].blocks[14] == File(7) && states[7].blocks[15] == File(3) && states[7].blocks[16] == File(3) && states[7].blocks[17] == File(3) && states[7].blocks[18] == File(6) && states[7].blocks[19] == File(4) && states[7].blocks[20] == File(4) && states[7].blocks[21] == File(6)
    ensures states[7].blocks[22] == File(5) && states[7].blocks[23] == File(5) && states[7].blocks[24] == File(5) && states[7].blocks[25] == File(5) && states[7].blocks[26] == File(6) && states[7].blocks[27] == File(6)
  {
    var b' := ExampleStep5(b);
    var rest := ExampleRunFrom6(b');
    RunCons(FileSystem(b, 36, [10, 12, 13, 14, 18, 21, 26, 31, 35, 41, 40, 39, 38, 37]), rest);
    states := [FileSystem(b, 36, [10, 12, 13, 14, 18, 21, 26, 31, 35, 41, 40, 39, 38, 37])] + rest;
    assert states[7] == rest[6];
  }

  /** The run of the example from `009981118..2...333.44.5555.6666.777.88....` on:
      8 steps to the compacted disk. */
  lemma ExampleRunFrom4(b: seq<Block>) returns (states: seq<FileSystem>)
    requires |b| == 42 && forall k | 37 < k < 42 :: b[k] == Free
    requires b[0] == File(0) && b[1] == File(0) && b[2] == File(9) && b[3] == File(9) && b[4] == File(8) && b[5] == File(1) && b[6] == File(1) && b[7] == File(1) && b[8] == File(8) && b[9] == Free && b[10] == Free
    requires b[11] == File(2) && b[12] == Free && b[13] == Free && b[14] == Free && b[15] == File(3) && b[16] == File(3) && b[17] == File(3) && b[18] == Free && b[19] == File(4) && b[20] == File(4) && b[21] == Free
    requires b[22] == File(5) && b[23] == File(5) && b[24] == File(5) && b[25] == File(5) && b[26] == Free && b[27] == File(6) && b[28] == File(6) && b[29] == File(6) && b[30] == File(6) && b[31] == Free && b[32] == File(7)
    requires b[33] == File(7) && b[34] == File(7) && b[35] == Free && b[36] == File(8) && b[37] == File(8) && b[38] == Free && b[39] == Free && b[40] == Free && b[41] == Free
    ensures |states| == 9 && states[0] == FileSystem(b, 37, [9, 10, 12, 13, 14, 18, 21, 26, 31, 35, 41, 40, 39, 38]) && IsRun(states)
    ensures Valid(states[8]) && IsFragmented(states[8])
    ensures states[8].lastFileBlock == 27 && states[8].freeBlocks == [31, 35, 41, 40, 39, 38, 37, 36, 34, 33, 32, 30, 29, 28]
    ensures |states[8].blocks| == 42 && forall k | 27 < k < 42 :: states[8].blocks[k] == Free
    ensures states[8].blocks[0] == File(0) && states[8].blocks[1] == File(0) && states[8].blocks[2] == File(9) && states[8].blocks[3] == File(9) && states[8].blocks[4] == File(8) && states[8].blocks[5] == File(1) && states[8].blocks[6] == File(1) && states[8].blocks[7] == File(1) && states[8].blocks[8] == File(8) && states[8].blocks[9] == File(8) && states[8].blocks[10] == File(8)
    ensures states[8].blocks[11] == File(2) && states[8].blocks[12] == File(7) && states[8].blocks[13] == File(7) && states[8].blocks[14] == File(7) && states[8].blocks[15] == File(3) && states[8].blocks[16] == File(3) && states[8].blocks[17] == File(3) && states[8].blocks[18] == File(6) && states[8].blocks[19] == File(4) && states[8].blocks[20] == File(4) && states[8].blocks[21] == File(6)
    ensures states[8].blocks[22] == File(5) && states[8].blocks[23] == File(5) && states[8].blocks[24] == File(5) && states[8].blocks[25] == File(5) && states[8].blocks[26] == File(6) && states[8].blocks[27] == File(6)
  {
    var b' := ExampleStep4(b);
    var rest := ExampleRunFrom5(b');
    RunCons(FileSystem(b, 37, [9, 10, 12, 13, 14, 18, 21, 26, 31, 35, 41, 40, 39, 38]), rest);
    states := [FileSystem(b, 37, [9, 10, 12, 13, 14, 18, 21, 26, 31, 35, 41, 40, 39, 38])] + rest;
    assert states[8] == rest[7];
  }

  /** The run of the example from `00998111...2...333.44.5555.6666.777.888...` on:
      9 steps to the compacted disk. */
  lemma ExampleRunFrom3(b: seq<Block>) returns (states: seq<FileSystem>)
    requires |b| == 42 && forall k | 38 < k < 42 :: b[k] == Free
    requires b[0] == File(0) && b[1] == File(0) && b[2] == File(9) && b[3] == File(9) && b[4] == File(8) && b[5] == File(1) && b[6] == File(1) && b[7] == File(1) && b[8] == Free && b[9] == Free && b[10] == Free
    requires b[11] == File(2) && b[12] == Free && b[13] == Free && b[14] == Free && b[15] == File(3) && b[16] == File(3) && b[17] == File(3) && b[18] == Free && b[19] == File(4) && b[20] == File(4) && b[21] == Free
    requires b[22] == File(5) && b[23] == File(5) && b[24] == File(5) && b[25] == File(5) && b[26] == Free && b[27] == File(6) && b[28] == File(6) && b[29] == File(6) && b[30] == File(6) && b[31] == Free && b[32] == File(7)
    requires b[33] == File(7) && b[34] == File(7) && b[35] == Free && b[36] == File(8) && b[37] == File(8) && b[38] == File(8) && b[39] == Free && b[40] == Free && b[41] == Free
    ensures |states| == 10 && states[0] == FileSystem(b, 38, [8, 9, 10, 12, 13, 14, 18, 21, 26, 31, 35, 41, 40, 39]) && IsRun(states)
    ensures Valid(states[9]) && IsFragmented(states[9])
    ensures states[9].lastFileBlock == 27 && states[9].freeBlocks == [31, 35, 41, 40, 39, 38, 37, 36, 34, 33, 32, 30, 29, 28]
    ensures |states[9].blocks| == 42 && forall k | 27 < k < 42 :: states[9].blocks[k] == Free
    ensures states[9].blocks[0] == File(0) && states[9].blocks[1] == File(0) && states[9].blocks[2] == File(9) && states[9].blocks[3] == File(9) && states[9].blocks[4] == File(8) && states[9].blocks[5] == File(1) && states[9].blocks[6] == File(1) && states[9].blocks[7] == File(1) && states[9].blocks[8] == File(8) && states[9].blocks[9] == File(8) && states[9].blocks[10] == File(8)
    ensures states[9].blocks[11] == File(2) && states[9].blocks[12] == File(7) && states[9].blocks[13] == File(7) && states[9].blocks[14] == File(7) && states[9].blocks[15] == File(3) && states[9].blocks[16] == File(3) && states[9].blocks[17] == File(3) && states[9].blocks[18] == File(6) && states[9].blocks[19] == File(4) && states[9].blocks[20] == File(4) && states[9].blocks[21] == File(6)
    ensures states[9].blocks[22] == File(5) && states[9].blocks[23] == File(5) && states[9].blocks[24] == File(5) && states[9].blocks[25] == File(5) && states[9].blocks[26] == File(6) && states[9].blocks[27] == File(6)
  {
    var b' := ExampleStep3(b);
    var rest := ExampleRunFrom4(b');
    RunCons(FileSystem(b, 38, [8, 9, 10, 12, 13, 14, 18, 21, 26, 31, 35, 41, 40, 39]), rest);
    states := [FileSystem(b, 38, [8, 9, 10, 12, 13, 14, 18, 21, 26, 31, 35, 41, 40, 39])] + rest;
    assert states[9] == rest[8];
  }

  /** The run of the example from `0099.111...2...333.44.5555.6666.777.8888..` on:
      10 steps to the compacted disk. */
  lemma ExampleRunFrom2(b: seq<Block>) returns (states: seq<FileSystem>)
    requires |b| == 42 && forall k | 39 < k < 42 :: b[k] == Free
    requires b[0] == File(0) && b[1] == File(0) && b[2] == File(9) && b[3] == File(9) && b[4] == Free && b[5] == File(1) && b[6] == File(1) && b[7] == File(1) && b[8] == Free && b[9] == Free && b[10] == Free
    requires b[11] == File(2) && b[12] == Free && b[13] == Free && b[14] == Free && b[15] == File(3) && b[16] == File(3) && b[17] == File(3) && b[18] == Free && b[19] == File(4) && b[20] == File(4) && b[21] == Free
    requires b[22] == File(5) && b[23] == File(5) && b[24] == File(5) && b[25] == File(5) && b[26] == Free && b[27] == File(6) && b[28] == File(6) && b[29] == File(6) && b[30] == File(6) && b[31] == Free && b[32] == File(7)
    requires b[33] == File(7) && b[34] == File(7) && b[35] == Free && b[36] == File(8) && b[37] == File(8) && b[38] == File(8) && b[39] == File(8) && b[40] == Free && b[41] == Free
    ensures |states| == 11 && states[0] == FileSystem(b, 39, [4, 8, 9, 10, 12, 13, 14, 18, 21, 26, 31, 35, 41, 40]) && IsRun(states)
    ensures Valid(states[10]) && IsFragmented(states[10])
    ensures states[10].lastFileBlock == 27 && states[10].freeBlocks == [31, 35, 41, 40, 39, 38, 37, 36, 34, 33, 32, 30, 29, 28]
    ensures |states[10].blocks| == 42 && forall k | 27 < k < 42 :: states[10].blocks[k] == Free
    ensures states[10].blocks[0] == File(0) && states[10].blocks[1] == File(0) && states[10].blocks[2] == File(9) && states[10].blocks[3] == File(9) && states[10].blocks[4] == File(8) && states[10].blocks[5] == File(1) && states[10].blocks[6] == File(1) && states[10].blocks[7] == File(1) && states[10].blocks[8] == File(8) && states[10].blocks[9] == File(8) && states[10].blocks[10] == File(8)
    ensures states[10].blocks[11] == File(2) && states[10].blocks[12] == File(7) && states[10].blocks[13] == File(7) && states[10].blocks[14] == File(7) && states[10].blocks[15] == File(3) && states[10].blocks[16] == File(3) && states[10].blocks[17] == File(3) && states[10].blocks[18] == File(6) && states[10].blocks[19] == File(4) && states[10].blocks[20] == File(4) && states[10].blocks[21] == File(6)
    ensures states[10].blocks[22] == File(5) && states[10].blocks[23] == File(5) && states[10].blocks[24] == File(5) && states[10].blocks[25] == File(5) && states[10].blocks[26] == File(6) && states[10].blocks[27] == File(6)
  {
    var b' := ExampleStep2(b);
    var rest := ExampleRunFrom3(b');
    RunCons(FileSystem(b, 39, [4, 8, 9, 10, 12, 13, 14, 18, 21, 26, 31, 35, 41, 40]), rest);
    states := [FileSystem(b, 39, [4, 8, 9, 10, 12, 13, 14, 18, 21, 26, 31, 35, 41, 40])] + rest;
    assert states[10] == rest[9];
  }

  /** The run of the example from `009..111...2...333.44.5555.6666.777.88889.` on:
      11 steps to the compacted disk. */
  lemma ExampleRunFrom1(b: seq<Block>) returns (states: seq<FileSystem>)
    requires |b| == 42 && forall k | 40 < k < 42 :: b[k] == Free
    requires b[0] == File(0) && b[1] == File(0) && b[2] == File(9) && b[3] == Free && b[4] == Free && b[5] == File(1) && b[6] == File(1) && b[7] == File(1) && b[8] == Free && b[9] == Free && b[10] == Free
    requires b[11] == File(2) && b[12] == Free && b[13] == Free && b[14] == Free && b[15] == File(3) && b[16] == File(3) && b[17] == File(3) && b[18] == Free && b[19] == File(4) && b[20] == File(4) && b[21] == Free
    requires b[22] == File(5) && b[23] == File(5) && b[24] == File(5) && b[25] == File(5) && b[26] == Free && b[27] == File(6) && b[28] == File(6) && b[29] == File(6) && b[30] == File(6) && b[31] == Free && b[32] == File(7)
    requires b[33] == File(7) && b[34] == File(7) && b[35] == Free && b[36] == File(8) && b[37] == File(8) && b[38] == File(8) && b[39] == File(8) && b[40] == File(9) && b[41] == Free
    ensures |states| == 12 && states[0] == FileSystem(b, 40, [3, 4, 8, 9, 10, 12, 13, 14, 18, 21, 26, 31, 35, 41]) && IsRun(states)
    ensures Valid(states[11]) && IsFragmented(states[11])
    ensures states[11].lastFileBlock == 27 && states[11].freeBlocks == [31, 35, 41, 40, 39, 38, 37, 36, 34, 33, 32, 30, 29, 28]
    ensures |states[11].blocks| == 42 && forall k | 27 < k < 42 :: states[11].blocks[k] == Free
    ensures states[11].blocks[0] == File(0) && states[11].blocks[1] == File(0) && states[11].blocks[2] == File(9) && states[11].blocks[3] == File(9) && states[11].blocks[4] == File(8) && states[11].blocks[5] == File(1) && states[11].blocks[6] == File(1) && states[11].blocks[7] == File(1) && states[11].blocks[8] == File(8) && states[11].blocks[9] == File(8) && states[11].blocks[10] == File(8)
    ensures states[11].blocks[11] == File(2) && states[11].blocks[12] == File(7) && states[11].blocks[13] == File(7) && states[11].blocks[14] == File(7) && states[11].blocks[15] == File(3) && states[11].blocks[16] == File(3) && states[11].blocks[17] == File(3) && states[11].blocks[18] == File(6) && states[11].blocks[19] == File(4) && states[11].blocks[20] == File(4) && states[11].blocks[21] == File(6)
    ensures states[11].blocks[22] == File(5) && states[11].blocks[23] == File(5) && states[11].blocks[24] == File(5) && states[11].blocks[25] == File(5) && states[11].blocks[26] == File(6) && states[11].blocks[27] == File(6)
  {
    var b' := ExampleStep1(b);
    var rest := ExampleRunFrom2(b');
    RunCons(FileSystem(b, 40, [3, 4, 8, 9, 10, 12, 13, 14, 18, 21, 26, 31, 35, 41]), rest);
    states := [FileSystem(b, 40, [3, 4, 8, 9, 10, 12, 13, 14, 18, 21, 26, 31, 35, 41])] + rest;
    assert states[11] == rest[10];
  }

  /** The run of the example from `00...111...2...333.44.5555.6666.777.888899` on:
      12 steps to the compacted disk. */
  lemma ExampleRunFrom0(b: seq<Block>) returns (states: seq<FileSystem>)
    requires |b| == 42
    requires b[0] == File(0) && b[1] == File(0) && b[2] == Free && b[3] == Free && b[4] == Free && b[5] == File(1) && b[6] == File(1) && b[7] == File(1) && b[8] == Free && b[9] == Free && b[10] == Free
    requires b[11] == File(2) && b[12] == Free && b[13] == Free && b[14] == Free && b[15] == File(3) && b[16] == File(3) && b[17] == File(3) && b[18] == Free && b[19] == File(4) && b[20] == File(4) && b[21] == Free
    requires b[22] == File(5) && b[23] == File(5) && b[24] == File(5) && b[25] == File(5) && b[26] == Free && b[27] == File(6) && b[28] == File(6) && b[29] == File(6) && b[30] == File(6) && b[31] == Free && b[32] == File(7)
    requires b[33] == File(7) && b[34] == File(7) && b[35] == Free && b[36] == File(8) && b[37] == File(8) && b[38] == File(8) && b[39] == File(8) && b[40] == File(9) && b[41] == File(9)
    ensures |states| == 13 && states[0] == FileSystem(b, 41, [2, 3, 4, 8, 9, 10, 12, 13, 14, 18, 21, 26, 31, 35]) && IsRun(states)
    ensures Valid(states[12]) && IsFragmented(states[12])
    ensures states[12].lastFileBlock == 27 && states[12].freeBlocks == [31, 35, 41, 40, 39, 38, 37, 36, 34, 33, 32, 30, 29, 28]
    ensures |states[12].blocks| == 42 && forall k | 27 < k < 42 :: states[12].blocks[k] == Free
    ensures states[12].blocks[0] == File(0) && states[12].blocks[1] == File(0) && states[12].blocks[2] == File(9) && states[12].blocks[3] == File(9) && states[12].blocks[4] == File(8) && states[12].blocks[5] == File(1) && states[12].blocks[6] == File(1) && states[12].blocks[7] == File(1) && states[12].blocks[8] == File(8) && states[12].blocks[9] == File(8) && states[12].blocks[10] == File(8)
    ensures states[12].blocks[11] == File(2) && states[12].blocks[12] == File(7) && states[12].blocks[13] == File(7) && states[12].blocks[14] == File(7) && states[12].blocks[15] == File(3) && states[12].blocks[16] == File(3) && states[12].blocks[17] == File(3) && states[12].blocks[18] == File(6) && states[12].blocks[19] == File(4) && states[12].blocks[20] == File(4) && states[12].blocks[21] == File(6)
    ensures states[12].blocks[22] == File(5) && states[12].blocks[23] == File(5) && states[12].blocks[24] == File(5) && states[12].blocks[25] == File(5) && states[12].blocks[26] == File(6) && states[12].blocks[27] == File(6)
  {
    var b' := ExampleStep0(b);
    var rest := ExampleRunFrom1(b');
    RunCons(FileSystem(b, 41, [2, 3, 4, 8, 9, 10, 12, 13, 14, 18, 21, 26, 31, 35]), rest);
    states := [FileSystem(b, 41, [2, 3, 4, 8, 9, 10, 12, 13, 14, 18, 21, 26, 31, 35])] + rest;
    assert states[12] == rest[11];
  }

  /** Every file id of `00...111...2...333.44.5555.6666.777.888899` is a single digit. */
  lemma ExampleSingleDigitsParsed(b: seq<Block>)
    requires |b| == 42
    requires b[0] == File(0) && b[1] == File(0) && b[2] == Free && b[3] == Free && b[4] == Free && b[5] == File(1) && b[6] == File(1) && b[7] == File(1) && b[8] == Free && b[9] == Free && b[10] == Free
    requires b[11] == File(2) && b[12] == Free && b[13] == Free && b[14] == Free && b[15] == File(3) && b[16] == File(3) && b[17] == File(3) && b[18] == Free && b[19] == File(4) && b[20] == File(4) && b[21] == Free
    requires b[22] == File(5) && b[23] == File(5) && b[24] == File(5) && b[25] == File(5) && b[26] == Free && b[27] == File(6) && b[28] == File(6) && b[29] == File(6) && b[30] == File(6) && b[31] == Free && b[32] == File(7)
    requires b[33] == File(7) && b[34] == File(7) && b[35] == Free && b[36] == File(8) && b[37] == File(8) && b[38] == File(8) && b[39] == File(8) && b[40] == File(9) && b[41] == File(9)
    ensures SingleDigitIds(b)
  {
    forall i | 0 <= i < 42 ensures b[i].File? ==> b[i].id < 10 {
      assert i == 0 || i == 1 || i == 2 || i == 3 || i == 4 || i == 5 || i == 6 || i == 7 || i == 8 || i == 9 || i == 10 || i == 11 || i == 12 || i == 13 || i == 14 || i == 15 || i == 16 || i == 17 || i == 18 || i == 19 || i == 20 || i == 21 || i == 22 || i == 23 || i == 24 || i == 25 || i == 26 || i == 27 || i == 28 || i == 29 || i == 30 || i == 31 || i == 32 || i == 33 || i == 34 || i == 35 || i == 36 || i == 37 || i == 38 || i == 39 || i == 40 || i == 41;
    }
  }

  /** The disk `00...111...2...333.44.5555.6666.777.888899` renders as that text. */
  lemma ExampleRenderParsed(b: seq<Block>)
    requires |b| == 42
    requires b[0] == File(0) && b[1] == File(0) && b[2] == Free && b[3] == Free && b[4] == Free && b[5] == File(1) && b[6] == File(1) && b[7] == File(1) && b[8] == Free && b[9] == Free && b[10] == Free
    requires b[11] == File(2) && b[12] == Free && b[13] == Free && b[14] == Free && b[15] == File(3) && b[16] == File(3) && b[17] == File(3) && b[18] == Free && b[19] == File(4) && b[20] == File(4) && b[21] == Free
    requires b[22] == File(5) && b[23] == File(5) && b[24] == File(5) && b[25] == File(5) && b[26] == Free && b[27] == File(6) && b[28] == File(6) && b[29] == File(6) && b[30] == File(6) && b[31] == Free && b[32] == File(7)
    requires b[33] == File(7) && b[34] == File(7) && b[35] == Free && b[36] == File(8) && b[37] == File(8) && b[38] == File(8) && b[39] == File(8) && b[40] == File(9) && b[41] == File(9)
    ensures Render(b) == "00...111...2...333.44.5555.6666.777.888899"
  {
    ExampleSingleDigitsParsed(b);
    RenderSingleDigits(b);
  }

  /** Every file id of `009..111...2...333.44.5555.6666.777.88889.` is a single digit. */
  lemma ExampleSingleDigitsFirstStep(b: seq<Block>)
    requires |b| == 42
    requires b[0] == File(0) && b[1] == File(0) && b[2] == File(9) && b[3] == Free && b[4] == Free && b[5] == File(1) && b[6] == File(1) && b[7] == File(1) && b[8] == Free && b[9] == Free && b[10] == Free
    requires b[11] == File(2) && b[12] == Free && b[13] == Free && b[14] == Free && b[15] == File(3) && b[16] == File(3) && b[17] == File(3) && b[18] == Free && b[19] == File(4) && b[20] == File(4) && b[21] == Free
    requires b[22] == File(5) && b[23] == File(5) && b[24] == File(5) && b[25] == File(5) && b[26] == Free && b[27] == File(6) && b[28] == File(6) && b[29] == File(6) && b[30] == File(6) && b[31] == Free && b[32] == File(7)
    requires b[33] == File(7) && b[34] == File(7) && b[35] == Free && b[36] == File(8) && b[37] == File(8) && b[38] == File(8) && b[39] == File(8) && b[40] == File(9) && b[41] == Free
    ensures SingleDigitIds(b)
  {
    forall i | 0 <= i < 42 ensures b[i].File? ==> b[i].id < 10 {
      assert i == 0 || i == 1 || i == 2 || i == 3 || i == 4 || i == 5 || i == 6 || i == 7 || i == 8 || i == 9 || i == 10 || i == 11 || i == 12 || i == 13 || i == 14 || i == 15 || i == 16 || i == 17 || i == 18 || i == 19 || i == 20 || i == 21 || i == 22 || i == 23 || i == 24 || i == 25 || i == 26 || i == 27 || i == 28 || i == 29 || i == 30 || i == 31 || i == 32 || i == 33 || i == 34 || i == 35 || i == 36 || i == 37 || i == 38 || i == 39 || i == 40 || i == 41;
    }
  }

  /** The disk `009..111...2...333.44.5555.6666.777.88889.` renders as that text. */
  lemma ExampleRenderFirstStep(b: seq<Block>)
    requires |b| == 42
    requires b[0] == File(0) && b[1] == File(0) && b[2] == File(9) && b[3] == Free && b[4] == Free && b[5] == File(1) && b[6] == File(1) && b[7] == File(1) && b[8] == Free && b[9] == Free && b[10] == Free
    requires b[11] == File(2) && b[12] == Free && b[13] == Free && b[14] == Free && b[15] == File(3) && b[16] == File(3) && b[17] == File(3) && b[18] == Free && b[19] == File(4) && b[20] == File(4) && b[21] == Free
    requires b[22] == File(5) && b[23] == File(5) && b[24] == File(5) && b[25] == File(5) && b[26] == Free && b[27] == File(6) && b[28] == File(6) && b[29] == File(6) && b[30] == File(6) && b[31] == Free && b[32] == File(7)
    requires b[33] == File(7) && b[34] == File(7) && b[35] == Free && b[36] == File(8) && b[37] == File(8) && b[38] == File(8) && b[39] == File(8) && b[40] == File(9) && b[41] == Free
    ensures Render(b) == "009..111...2...333.44.5555.6666.777.88889."
  {
    ExampleSingleDigitsFirstStep(b);
    RenderSingleDigits(b);
  }

  /** Every file id of `0099811188827773336446555566..............` is a single digit. */
  lemma ExampleSingleDigitsCompacted(b: seq<Block>)
    requires |b| == 42
    requires b[0] == File(0) && b[1] == File(0) && b[2] == File(9) && b[3] == File(9) && b[4] == File(8) && b[5] == File(1) && b[6] == File(1) && b[7] == File(1) && b[8] == File(8) && b[9] == File(8) && b[10] == File(8)
    requires b[11] == File(2) && b[12] == File(7) && b[13] == File(7) && b[14] == File(7) && b[15] == File(3) && b[16] == File(3) && b[17] == File(3) && b[18] == File(6) && b[19] == File(4) && b[20] == File(4) && b[21] == File(6)
    requires b[22] == File(5) && b[23] == File(5) && b[24] == File(5) && b[25] == File(5) && b[26] == File(6) && b[27] == File(6) && b[28] == Free && b[29] == Free && b[30] == Free && b[31] == Free && b[32] == Free
    requires b[33] == Free && b[34] == Free && b[35] == Free && b[36] == Free && b[37] == Free && b[38] == Free && b[39] == Free && b[40] == Free && b[41] == Free
    ensures SingleDigitIds(b)
  {
    forall i | 0 <= i < 42 ensures b[i].File? ==> b[i].id < 10 {
      assert i == 0 || i == 1 || i == 2 || i == 3 || i == 4 || i == 5 || i == 6 || i == 7 || i == 8 || i == 9 || i == 10 || i == 11 || i == 12 || i == 13 || i == 14 || i == 15 || i == 16 || i == 17 || i == 18 || i == 19 || i == 20 || i == 21 || i == 22 || i == 23 || i == 24 || i == 25 || i == 26 || i == 27 || i == 28 || i == 29 || i == 30 || i == 31 || i == 32 || i == 33 || i == 34 || i == 35 || i == 36 || i == 37 || i == 38 || i == 39 || i == 40 || i == 41;
    }
  }

  /** The disk `0099811188827773336446555566..............` renders as that text. */
  lemma ExampleRenderCompacted(b: seq<Block>)
    requires |b| == 42
    requires b[0] == File(0) && b[1] == File(0) && b[2] == File(9) && b[3] == File(9) && b[4] == File(8) && b[5] == File(1) && b[6] == File(1) && b[7] == File(1) && b[8] == File(8) && b[9] == File(8) && b[10] == File(8)
    requires b[11] == File(2) && b[12] == File(7) && b[13] == File(7) && b[14] == File(7) && b[15] == File(3) && b[16] == File(3) && b[17] == File(3) && b[18] == File(6) && b[19] == File(4) && b[20] == File(4) && b[21] == File(6)
    requires b[22] == File(5) && b[23] == File(5) && b[24] == File(5) && b[25] == File(5) && b[26] == File(6) && b[27] == File(6) && b[28] == Free && b[29] == Free && b[30] == Free && b[31] == Free && b[32] == Free
    requires b[33] == Free && b[34] == Free && b[35] == Free && b[36] == Free && b[37] == Free && b[38] == Free && b[39] == Free && b[40] == Free && b[41] == Free
    ensures Render(b) == "0099811188827773336446555566.............."
  {
    ExampleSingleDigitsCompacted(b);
    RenderSingleDigits(b);
  }

  /** The checksum of the first 14 blocks of the compacted example. */
  lemma ExampleChecksumHead(b: seq<Block>)
    requires 14 <= |b|
    requires b[0] == File(0) && b[1] == File(0) && b[2] == File(9) && b[3] == File(9) && b[4] == File(8) && b[5] == File(1) && b[6] == File(1)
    requires b[7] == File(1) && b[8] == File(8) && b[9] == File(8) && b[10] == File(8) && b[11] == File(2) && b[12] == File(7) && b[13] == File(7)
    ensures Checksum(b[..14]) == 508
  {
    assert b[..0] == [];
    ChecksumPrefixStep(b, 0, 0);
    ChecksumPrefixStep(b, 1, 0);
    ChecksumPrefixStep(b, 2, 0);
    ChecksumPrefixStep(b, 3, 18);
    ChecksumPrefixStep(b, 4, 45);
    ChecksumPrefixStep(b, 5, 77);
    ChecksumPrefixStep(b, 6, 82);
    ChecksumPrefixStep(b, 7, 88);
    ChecksumPrefixStep(b, 8, 95);
    ChecksumPrefixStep(b, 9, 159);
    ChecksumPrefixStep(b, 10, 231);
    ChecksumPrefixStep(b, 11, 311);
    ChecksumPrefixStep(b, 12, 333);
    ChecksumPrefixStep(b, 13, 417);
  }

  /** The checksum of the 28 file blocks of the compacted example. */
  lemma ExampleChecksumTail(b: seq<Block>)
    requires 28 <= |b| && Checksum(b[..14]) == 508
    requires b[14] == File(7) && b[15] == File(3) && b[16] == File(3) && b[17] == File(3) && b[18] == File(6) && b[19] == File(4) && b[20] == File(4)
    requires b[21] == File(6) && b[22] == File(5) && b[23] == File(5) && b[24] == File(5) && b[25] == File(5) && b[26] == File(6) && b[27] == File(6)
    ensures Checksum(b[..28]) == 1928
  {
    ChecksumPrefixStep(b, 14, 508);
    ChecksumPrefixStep(b, 15, 606);
    ChecksumPrefixStep(b, 16, 651);
    ChecksumPrefixStep(b, 17, 699);
    ChecksumPrefixStep(b, 18, 750);
    ChecksumPrefixStep(b, 19, 858);
    ChecksumPrefixStep(b, 20, 934);
    ChecksumPrefixStep(b, 21, 1014);
    ChecksumPrefixStep(b, 22, 1140);
    ChecksumPrefixStep(b, 23, 1250);
    ChecksumPrefixStep(b, 24, 1365);
    ChecksumPrefixStep(b, 25, 1485);
    ChecksumPrefixStep(b, 26, 1610);
    ChecksumPrefixStep(b, 27, 1766);
  }

  /** The compacted example: 28 file blocks, then free ones, with checksum
      1928. */
  lemma ExampleChecksum(b: seq<Block>)
    requires |b| == 42 && forall k | 27 < k < 42 :: b[k] == Free
    requires b[0] == File(0) && b[1] == File(0) && b[2] == File(9) && b[3] == File(9) && b[4] == File(8) && b[5] == File(1) && b[6] == File(1) && b[7] == File(1) && b[8] == File(8) && b[9] == File(8) && b[10] == File(8)
    requires b[11] == File(2) && b[12] == File(7) && b[13] == File(7) && b[14] == File(7) && b[15] == File(3) && b[16] == File(3) && b[17] == File(3) && b[18] == File(6) && b[19] == File(4) && b[20] == File(4) && b[21] == File(6)
    requires b[22] == File(5) && b[23] == File(5) && b[24] == File(5) && b[25] == File(5) && b[26] == File(6) && b[27] == File(6)
    ensures Checksum(b) == 1928
  {
    ChecksumTrailingFree(b, 28);
    ExampleChecksumHead(b);
    ExampleChecksumTail(b);
  }

  /** `test_parse_example_input`: the example map parses, with the last
      file block at 41 and every free index queued, and renders as
      `00...111...2...333.44.5555.6666.777.888899`. */
  lemma ExampleParse(s: string)
    requires SpellsExampleMap(s)
    ensures FromStr(s).Some?
    ensures var fs := FromStr(s).value;
            && Render(fs.blocks) == "00...111...2...333.44.5555.6666.777.888899"
            && fs.lastFileBlock == 41 && fs.freeBlocks == [2, 3, 4, 8, 9, 10, 12, 13, 14, 18, 21, 26, 31, 35]
  {
    var b := ExampleParsed(s);
    ExampleRenderParsed(b);
  }

  /** `test_defrag_last_file_block`: one step from the parsed example moves
      the last `9` to index 2, and the disk renders as
      `009..111...2...333.44.5555.6666.777.88889.`. */
  lemma ExampleFirstStep(s: string)
    requires SpellsExampleMap(s)
    ensures FromStr(s).Some? && Valid(FromStr(s).value)
    ensures var r := FragmentLastFileBlock(FromStr(s).value);
            && r.Some? && Render(r.value.blocks) == "009..111...2...333.44.5555.6666.777.88889."
            && r.value.lastFileBlock == 40 && r.value.freeBlocks == [3, 4, 8, 9, 10, 12, 13, 14, 18, 21, 26, 31, 35, 41]
  {
    var b := ExampleParsed(s);
    var b' := ExampleStep0(b);
    ExampleRenderFirstStep(b');
  }

  /** `test_defrag_example_input`: given fuel for its twelve steps,
      `fragment` compacts the example to
      `0099811188827773336446555566..............`, whose checksum is 1928. */
  lemma ExampleCompaction(s: string, fuel: nat)
    requires SpellsExampleMap(s) && 12 <= fuel
    ensures FromStr(s).Some? && Valid(FromStr(s).value)
    ensures var r := Fragment(FromStr(s).value, fuel);
            && r.Ok? && Render(r.value.blocks) == "0099811188827773336446555566.............."
            && Checksum(r.value.blocks) == 1928
            && r.value.lastFileBlock == 27 && r.value.freeBlocks == [31, 35, 41, 40, 39, 38, 37, 36, 34, 33, 32, 30, 29, 28]
  {
    var b := ExampleParsed(s);
    var states := ExampleRunFrom0(b);
    FragmentFollowsRun(states, fuel);
    ExampleRenderCompacted(states[12].blocks);
    ExampleChecksum(states[12].blocks);
  }
}
