/** Disk fragmenter: a dense disk map expands into blocks, each holding a
    file id or free; part 1 moves single blocks into the leftmost free space,
    part 2 moves whole files, and the checksum weighs each id by its
    position. */
module Y2024Day09 {
  import opened Wrappers
  import opened Text
  import opened SeqUtil

  /** One disk block: the id of the file it belongs to, or free. */
  type Block = Option<nat>

  // Decoding

  /** Length of the run of decimal digits that starts the text. */
  function DigitPrefix(s: String): (n: nat)
    ensures n <= |s| && AllDigits(s[..n])
    ensures n < |s| ==> !IsDigit(s[n])
  {
    if s == [] || !IsDigit(s[0]) then 0
    else
      var n := 1 + DigitPrefix(s[1..]);
      assert forall k :: 1 <= k < n ==> s[..n][k] == s[1..][..n - 1][k - 1];
      n
  }

  /** `vec![b; d]`. */
  function Repeat(b: Block, d: nat): seq<Block> {
    if d == 0 then [] else Repeat(b, d - 1) + [b]
  }

  /** What the digit at index `i` of the map describes: file `i / 2` at an
      even index, free space at an odd one. */
  function Kind(i: nat): Block {
    if i % 2 == 0 then Some(i / 2) else None
  }

  /** The blocks the digits describe, each digit's run in order. */
  function DecodeDigits(ds: seq<nat>): seq<Block> {
    if ds == [] then []
    else
      var i := |ds| - 1;
      DecodeDigits(ds[..i]) + Repeat(Kind(i), ds[i])
  }

  /** `decode`: the digits up to the first other character. */
  function Decode(input: String): seq<Block> {
    var n := DigitPrefix(input);
    DecodeDigits(DigitsOfText(input[..n]))
  }

  lemma KindOf(i: nat, id: nat)
    ensures Kind(i) == Some(id) <==> i == 2 * id
  {
  }

  lemma {:induction false} RepeatCount(b: Block, d: nat, x: Block)
    ensures |Repeat(b, d)| == d
    ensures multiset(Repeat(b, d))[x] == if x == b then d else 0
  {
    if d > 0 {
      RepeatCount(b, d - 1, x);
    }
  }

  /** The disk is as long as the digits add up to. */
  lemma {:induction false} DecodeDigitsLength(ds: seq<nat>)
    ensures |DecodeDigits(ds)| == Sum(ds)
  {
    if ds != [] {
      var i := |ds| - 1;
      DecodeDigitsLength(ds[..i]);
      RepeatCount(Kind(i), ds[i], None);
    }
  }

  /** File `id` occupies exactly as many blocks as the digit at index
      `2 * id` says, and no blocks when the map has no such digit. */
  lemma {:induction false} DecodeDigitsCount(ds: seq<nat>, id: nat)
    ensures multiset(DecodeDigits(ds))[Some(id)] == if 2 * id < |ds| then ds[2 * id] else 0
  {
    if ds != [] {
      var i := |ds| - 1;
      var prefix := ds[..i];
      DecodeDigitsCount(prefix, id);
      RepeatCount(Kind(i), ds[i], Some(id));
      KindOf(i, id);
      assert multiset(DecodeDigits(ds)) == multiset(DecodeDigits(prefix)) + multiset(Repeat(Kind(i), ds[i]));
      if 2 * id < i {
        assert prefix[2 * id] == ds[2 * id];
      }
    }
  }

  /** Decoding stops at the first character that is not a decimal digit. */
  lemma DecodeStops(digits: String, rest: String)
    requires AllDigits(digits) && (rest == [] || !IsDigit(rest[0]))
    ensures Decode(digits + rest) == DecodeDigits(DigitsOfText(digits))
  {
    DigitPrefixOf(digits, rest);
    assert (digits + rest)[..|digits|] == digits;
  }

  lemma {:induction false} DigitPrefixOf(digits: String, rest: String)
    requires AllDigits(digits) && (rest == [] || !IsDigit(rest[0]))
    ensures DigitPrefix(digits + rest) == |digits|
  {
    if digits != [] {
      assert (digits + rest)[1..] == digits[1..] + rest;
      DigitPrefixOf(digits[1..], rest);
    }
  }

  // Checksum

  /** What one block adds to the checksum. */
  function Weight(i: nat, b: Block): nat {
    match b
    case None => 0
    case Some(id) => i * id
  }

  /** `checksum`. */
  function Checksum(s: seq<Block>): nat {
    if s == [] then 0 else Checksum(s[..|s| - 1]) + Weight(|s| - 1, s[|s| - 1])
  }

  /** Each file block adds its position times its id, and nothing else
      counts: clearing one block takes exactly its share off the checksum. */
  lemma {:induction false} ChecksumClear(s: seq<Block>, k: nat)
    requires k < |s|
    ensures Checksum(s) == Checksum(s[k := None]) + Weight(k, s[k])
  {
    var n := |s| - 1;
    if k == n {
      assert s[k := None][..n] == s[..n];
    } else {
      assert s[k := None][..n] == s[..n][k := None];
      ChecksumClear(s[..n], k);
    }
  }

  /** A disk without files has checksum 0. */
  lemma {:induction false} ChecksumFree(s: seq<Block>)
    requires forall k :: 0 <= k < |s| ==> s[k].None?
    ensures Checksum(s) == 0
  {
    if s != [] {
      ChecksumFree(s[..|s| - 1]);
    }
  }

  // Moving single blocks

  /** Some block holds a file. */
  predicate HasFile(s: seq<Block>) {
    exists k :: 0 <= k < |s| && s[k].Some?
  }

  /** Every file block comes before every free one. */
  predicate Compacted(s: seq<Block>) {
    forall p, q :: 0 <= p < q < |s| && s[p].None? ==> s[q].None?
  }

  /** `len - 1 - iter().rev().position(is_some).unwrap()`: the last file
      block. */
  function LastFile(s: seq<Block>): (r: nat)
    requires HasFile(s)
    ensures r < |s| && s[r].Some?
    ensures forall k :: r < k < |s| ==> s[k].None?
  {
    var n := |s| - 1;
    if s[n].Some? then n
    else
      var k :| 0 <= k < |s| && s[k].Some?;
      assert s[..n][k].Some?;
      LastFile(s[..n])
  }

  /** The first `i` blocks hold files. */
  predicate FilesBefore(s: seq<Block>, i: nat) {
    forall k :: 0 <= k < i && k < |s| ==> s[k].Some?
  }

  /** Moving the last file block into the free block `i` only rearranges the
      disk, and block `i` then holds a file. */
  lemma FillFree(s: seq<Block>, i: nat, last: nat)
    requires i < last < |s| && s[i] == None && s[last].Some? && FilesBefore(s, i)
    ensures multiset(s[i := s[last]][last := None]) == multiset(s)
    ensures FilesBefore(s[i := s[last]][last := None], i + 1)
    ensures HasFile(s[i := s[last]][last := None])
  {
    SwapMultiset(s, i, last);
    assert s[i := s[last]][last := None][i].Some?;
  }

  /** Files up to `i` and free space after `last <= i` make a compacted
      disk. */
  lemma CompactedAfter(s: seq<Block>, i: nat, last: nat)
    requires last <= i <= |s|
    requires FilesBefore(s, i)
    requires forall k :: last < k < |s| ==> s[k].None?
    ensures Compacted(s)
  {
  }

  /** What `compact` leaves from block `i` on: at each free block, the last
      file block moves there while it lies further right; once it does not,
      the disk stays as it is. */
  function CompactFrom(s: seq<Block>, i: nat): seq<Block>
    requires i <= |s| && (None in s ==> HasFile(s))
    decreases |s| - i
  {
    if i == |s| then s
    else if s[i].Some? then CompactFrom(s, i + 1)
    else
      var last := LastFile(s);
      if last <= i then s
      else
        var t := s[i := s[last]][last := None];
        assert t[i].Some?;
        CompactFrom(t, i + 1)
  }

  /** The reference compaction only rearranges the blocks. */
  lemma {:induction false} CompactFromPermutes(s: seq<Block>, i: nat)
    requires i <= |s| && (None in s ==> HasFile(s))
    ensures multiset(CompactFrom(s, i)) == multiset(s)
    decreases |s| - i
  {
    if i < |s| {
      if s[i].Some? {
        CompactFromPermutes(s, i + 1);
      } else if LastFile(s) > i {
        var last := LastFile(s);
        var t := s[i := s[last]][last := None];
        assert t[i].Some?;
        SwapMultiset(s, i, last);
        CompactFromPermutes(t, i + 1);
      }
    }
  }

  /** Started on a disk whose first `i` blocks hold files, the reference
      compaction leaves no file block after a free one. */
  lemma {:induction false} CompactFromCompacted(s: seq<Block>, i: nat)
    requires i <= |s| && (None in s ==> HasFile(s)) && FilesBefore(s, i)
    ensures Compacted(CompactFrom(s, i))
    decreases |s| - i
  {
    if i == |s| {
      CompactedAfter(s, i, i);
    } else if s[i].Some? {
      CompactFromCompacted(s, i + 1);
    } else {
      var last := LastFile(s);
      if last <= i {
        CompactedAfter(s, i, last);
      } else {
        FillFree(s, i, last);
        CompactFromCompacted(s[i := s[last]][last := None], i + 1);
      }
    }
  }

  /** The disk `0.11`. */
  const SmallDisk: seq<Block> := [Some(0), None, Some(1), Some(1)]

  /** The compaction is fixed block by block, and so is the checksum: the
      disk `0.11` compacts to `011.`, whose checksum is 0·0 + 1·1 + 2·1 = 3. */
  lemma CompactExample()
    ensures HasFile(SmallDisk)
    ensures CompactFrom(SmallDisk, 0) == [Some(0), Some(1), Some(1), None]
    ensures Checksum(CompactFrom(SmallDisk, 0)) == 3
  {
    var s := SmallDisk;
    var t: seq<Block> := [Some(0), Some(1), Some(1), None];
    assert s[3].Some? && LastFile(s) == 3;
    assert s[1 := s[3]][3 := None] == t;
    assert t[2].Some? && LastFile(t) == 2;
    assert CompactFrom(t, 3) == t;
    assert CompactFrom(t, 2) == t;
    assert t[..3] == [Some(0), Some(1), Some(1)];
    assert t[..3][..2] == [Some(0), Some(1)];
    assert t[..3][..2][..1] == [Some(0)];
    assert [Some(0)][..0] == [];
    assert Checksum([Some(0)]) == 0;
    assert Checksum([Some(0), Some(1)]) == 1;
    assert Checksum([Some(0), Some(1), Some(1)]) == 3;
  }

  /** `compact`: fills each free block, left to right, with the last file
      block while that lies further right. The source panics on a disk with
      free space and no file. */
  method Compact(a: array<Block>)
    requires None in a[..] ==> HasFile(a[..])
    modifies a
    ensures a[..] == CompactFrom(old(a[..]), 0)
    ensures multiset(a[..]) == multiset(old(a[..]))
    ensures Compacted(a[..])
  {
    CompactFromPermutes(a[..], 0);
    CompactFromCompacted(a[..], 0);
    var i := 0;
    while i < a.Length
      invariant 0 <= i <= a.Length
      invariant None in a[..] ==> HasFile(a[..])
      invariant CompactFrom(a[..], i) == CompactFrom(old(a[..]), 0)
    {
      if a[i].None? {
        ghost var before := a[..];
        var last := LastFile(a[..]);
        if last <= i {
          break;
        }
        a[i] := a[last];
        a[last] := None;
        assert a[..] == before[i := before[last]][last := None];
        assert a[..][i].Some?;
      }
      i := i + 1;
    }
  }

  // Moving whole files

  /** The `len` blocks from `i` are free. */
  predicate Free(s: seq<Block>, i: nat, len: nat)
    requires i + len <= |s|
  {
    forall k :: i <= k < i + len ==> s[k].None?
  }

  /** The first free window of `len` blocks starting at `i` or later and
      before `start`. */
  function WindowFrom(s: seq<Block>, i: nat, start: nat, len: nat): (r: Option<nat>)
    requires i <= start && start + len <= |s|
    ensures r.Some? ==> i <= r.value < start && Free(s, r.value, len)
    ensures r.Some? ==> forall k :: i <= k < r.value ==> !Free(s, k, len)
    ensures r.None? ==> forall k :: i <= k < start ==> !Free(s, k, len)
    decreases start - i
  {
    if i == start then None
    else if Free(s, i, len) then Some(i)
    else WindowFrom(s, i + 1, start, len)
  }

  /** The leftmost free window of `len` blocks that starts before `start`. */
  function FirstWindow(s: seq<Block>, start: nat, len: nat): (r: Option<nat>)
    requires start + len <= |s|
    ensures r.Some? ==> r.value < start && Free(s, r.value, len)
    ensures r.Some? ==> forall k :: 0 <= k < r.value ==> !Free(s, k, len)
    ensures r.None? ==> forall k :: 0 <= k < start ==> !Free(s, k, len)
  {
    WindowFrom(s, 0, start, len)
  }

  /** The disk after the first `len` blocks from `start` have moved to the
      window at `i`, leaving free blocks behind. */
  function MoveFile(s: seq<Block>, i: nat, start: nat, len: nat): (r: seq<Block>)
    requires i < start && start + len <= |s|
    ensures |r| == |s|
  {
    seq(|s|, k requires 0 <= k < |s| =>
      if i <= k < i + len then s[start + k - i]
      else if start <= k < start + len then None
      else s[k])
  }

  /** Exchanging two entries keeps the multiset. */
  lemma SwapMultiset(s: seq<Block>, x: nat, y: nat)
    requires x < |s| && y < |s|
    ensures multiset(s[x := s[y]][y := s[x]]) == multiset(s)
  {
  }

  lemma MoveNothing(s: seq<Block>, i: nat, start: nat)
    requires i < start && start <= |s|
    ensures MoveFile(s, i, start, 0) == s
  {
  }

  /** Moving a file into a free window only rearranges the disk. */
  lemma {:induction false} MoveFilePermutes(s: seq<Block>, i: nat, start: nat, len: nat)
    requires i < start && start + len <= |s| && Free(s, i, len)
    ensures multiset(MoveFile(s, i, start, len)) == multiset(s)
  {
    if len == 0 {
      MoveNothing(s, i, start);
    } else {
      var k := len - 1;
      FreeShorter(s, i, len);
      MoveFilePermutes(s, i, start, k);
      MoveOneMore(s, i, start, len, k);
    }
  }

  lemma FreeShorter(s: seq<Block>, i: nat, len: nat)
    requires len >= 1 && i + len <= |s| && Free(s, i, len)
    ensures Free(s, i, len - 1)
  {
  }

  /** Each step of the move is a swap. */
  lemma MoveOneMore(s: seq<Block>, i: nat, start: nat, len: nat, k: nat)
    requires i < start && start + len <= |s| && Free(s, i, len) && k < len
    ensures multiset(MoveFile(s, i, start, k + 1)) == multiset(MoveFile(s, i, start, k))
  {
    MoveFileStep(s, i, start, len, k);
    var m := MoveFile(s, i, start, k);
    assert MoveFile(s, i, start, k + 1) == m[i + k := m[start + k]][start + k := m[i + k]];
    SwapMultiset(m, i + k, start + k);
  }

  /** Swapping one more block of a free window with its file block moves
      one more block. */
  lemma MoveFileStep(s: seq<Block>, i: nat, start: nat, len: nat, k: nat)
    requires i < start && start + len <= |s| && Free(s, i, len) && k < len
    ensures MoveFile(s, i, start, k)[i + k] == None
    ensures MoveFile(s, i, start, k)[start + k] == s[start + k]
    ensures MoveFile(s, i, start, k + 1) == MoveFile(s, i, start, k)[i + k := s[start + k]][start + k := None]
  {
  }

  /** `swap_emptyspace`: the blocks `start..=end` trade places, one by one,
      with the leftmost free window of their length that starts before
      `start`; without such a window nothing moves. */
  method SwapEmptySpace(a: array<Block>, start: nat, end: nat)
    requires start <= end < a.Length
    modifies a
    ensures multiset(a[..]) == multiset(old(a[..]))
    ensures FirstWindow(old(a[..]), start, end - start + 1).None? ==> a[..] == old(a[..])
    ensures FirstWindow(old(a[..]), start, end - start + 1).Some? ==>
      a[..] == MoveFile(old(a[..]), FirstWindow(old(a[..]), start, end - start + 1).value, start, end - start + 1)
  {
    var len := end - start + 1;
    var window := FirstWindow(a[..], start, len);
    if window.Some? {
      MoveFilePermutes(a[..], window.value, start, len);
      SwapBlocks(a, window.value, start, len);
    }
  }

  /** The loop of `swap_emptyspace`: swaps block `start + k` with block
      `i + k` for each `k` below `len`, in order. */
  method SwapBlocks(a: array<Block>, i: nat, start: nat, len: nat)
    requires i < start && start + len <= a.Length && Free(a[..], i, len)
    modifies a
    ensures a[..] == MoveFile(old(a[..]), i, start, len)
  {
    ghost var s := a[..];
    MoveNothing(s, i, start);
    for k := 0 to len
      invariant a[..] == MoveFile(s, i, start, k)
    {
      ghost var before := a[..];
      MoveFileStep(s, i, start, len, k);
      a[i + k], a[start + k] := a[start + k], a[i + k];
      assert a[..] == before[i + k := before[start + k]][start + k := before[i + k]];
    }
  }

  /** `compact_keepfiles`: scanning from the right, each time a different id
      shows up the file seen before it is offered to `swap_emptyspace`. The
      source panics on an empty disk. */
  method CompactKeepFiles(a: array<Block>)
    requires a.Length >= 1
    modifies a
    ensures multiset(a[..]) == multiset(old(a[..]))
  {
    var fileStart: nat := a.Length - 1;
    var fileEnd: nat := a.Length - 1;
    var fileId: nat := a[a.Length - 1].UnwrapOr(0);
    for i := 0 to a.Length
      invariant fileStart <= fileEnd < a.Length
      invariant fileStart + i >= a.Length - 1
      invariant multiset(a[..]) == multiset(old(a[..]))
    {
      var irev := a.Length - 1 - i;
      match a[irev]
      case Some(block) =>
        if block != fileId {
          SwapEmptySpace(a, fileStart, fileEnd);
          fileStart := irev;
          fileEnd := irev;
          fileId := block;
        } else {
          fileStart := irev;
        }
      case None =>
    }
  }
}
