/**
  Blocks and files: how the server cuts the source file into numbered blocks
  (ttp_open_transfer and build_datagram), and how the client's disk thread puts
  them back (accept_block).
*/
module BlockFile {
  import opened Wire

  datatype Layout = Layout(source: seq<Byte>, blockSize: nat)

  ghost predicate ValidLayout(l: Layout) {
    l.blockSize >= 1 && |l.source| >= 1
  }

  function BlockCount(l: Layout): nat
    requires l.blockSize >= 1
  {
    |l.source| / l.blockSize + (if |l.source| % l.blockSize != 0 then 1 else 0)
  }

  function Offset(l: Layout, b: nat): nat
    requires 1 <= b
  {
    l.blockSize * (b - 1)
  }

  /** How many bytes accept_block writes for a block. */
  function WriteSize(l: Layout, b: nat): nat
    requires l.blockSize >= 1
  {
    if b == BlockCount(l) then
      if |l.source| % l.blockSize == 0 then l.blockSize else |l.source| % l.blockSize
    else l.blockSize
  }

  // ----- geometry -------------------------------------------------------------

  lemma DivMod(x: nat, d: nat)
    requires d >= 1
    ensures x == d * (x / d) + x % d && x % d < d
  {
  }

  lemma {:induction false} MulMono(d: nat, x: nat, y: nat)
    requires x <= y
    ensures d * x <= d * y
  {
  }

  /** The last block ends where the file ends. */
  lemma LastBlockEnds(l: Layout)
    requires ValidLayout(l)
    ensures BlockCount(l) >= 1
    ensures Offset(l, BlockCount(l)) + WriteSize(l, BlockCount(l)) == |l.source|
    ensures 1 <= WriteSize(l, BlockCount(l)) <= l.blockSize
  {
    DivMod(|l.source|, l.blockSize);
    var q := |l.source| / l.blockSize;
    if |l.source| % l.blockSize == 0 {
      assert q >= 1;
      assert l.blockSize * (q - 1) + l.blockSize == l.blockSize * q;
    }
  }

  lemma BlockInside(l: Layout, b: nat)
    requires ValidLayout(l) && 1 <= b <= BlockCount(l)
    ensures Offset(l, b) + WriteSize(l, b) <= |l.source|
    ensures 1 <= WriteSize(l, b) <= l.blockSize
    ensures b < BlockCount(l) ==> Offset(l, b) + l.blockSize <= Offset(l, BlockCount(l))
  {
    LastBlockEnds(l);
    if b < BlockCount(l) {
      assert Offset(l, b) + l.blockSize == l.blockSize * b;
      MulMono(l.blockSize, b, BlockCount(l) - 1);
    }
  }

  lemma BlocksDisjoint(l: Layout, a: nat, b: nat)
    requires l.blockSize >= 1 && 1 <= a < b
    ensures Offset(l, a) + l.blockSize <= Offset(l, b)
  {
    assert Offset(l, a) + l.blockSize == l.blockSize * a;
    MulMono(l.blockSize, a, b - 1);
  }

  lemma NextOffset(l: Layout, b: nat)
    requires 1 <= b
    ensures Offset(l, b + 1) == Offset(l, b) + l.blockSize
  {
  }

  /** Every byte of the file lies in a block. */
  lemma BlockOfByte(l: Layout, i: nat)
    requires ValidLayout(l) && i < |l.source|
    ensures var b := i / l.blockSize + 1;
            1 <= b <= BlockCount(l) && Offset(l, b) <= i < Offset(l, b) + WriteSize(l, b)
  {
    var b := i / l.blockSize + 1;
    DivMod(i, l.blockSize);
    LastBlockEnds(l);
    if b > BlockCount(l) {
      BlocksDisjoint(l, BlockCount(l), b);
    }
  }

  function BlockSlice(l: Layout, b: nat): seq<Byte>
    requires ValidLayout(l) && 1 <= b <= BlockCount(l)
  {
    BlockInside(l, b);
    l.source[Offset(l, b)..Offset(l, b) + WriteSize(l, b)]
  }

  // ----- the server reads a block -----------------------------------------------

  function ReadLength(l: Layout, pos: nat): nat {
    if pos >= |l.source| then 0 else Min(l.blockSize, |l.source| - pos)
  }

  /** fread of one block at `pos` over a buffer that keeps what is not overwritten. */
  function ReadAt(l: Layout, pos: nat, buffer: seq<Byte>): seq<Byte> {
    var n := ReadLength(l, pos);
    if n == 0 then buffer
    else l.source[pos..pos + n] + (if n <= |buffer| then buffer[n..] else [])
  }

  /** The data area of the datagram for block b. */
  function ReadBlock(l: Layout, b: nat, buffer: seq<Byte>): seq<Byte>
    requires 1 <= b
  {
    ReadAt(l, Offset(l, b), buffer)
  }

  /** A data area whose first WriteSize bytes are those of block b. */
  ghost predicate Carries(l: Layout, b: nat, payload: seq<Byte>)
    requires ValidLayout(l)
  {
    && 1 <= b <= BlockCount(l)
    && |payload| == l.blockSize
    && WriteSize(l, b) <= |payload|
    && payload[..WriteSize(l, b)] == BlockSlice(l, b)
  }

  lemma ReadBlockCarries(l: Layout, b: nat, buffer: seq<Byte>)
    requires ValidLayout(l) && 1 <= b <= BlockCount(l) && |buffer| == l.blockSize
    ensures Carries(l, b, ReadBlock(l, b, buffer))
  {
    BlockInside(l, b);
    LastBlockEnds(l);
  }

  /** After a full block the file stands at the next one. */
  lemma ReadSteps(l: Layout, b: nat)
    requires ValidLayout(l) && 1 <= b <= BlockCount(l)
    ensures b < BlockCount(l) ==> Offset(l, b) + ReadLength(l, Offset(l, b)) == Offset(l, b + 1)
  {
    BlockInside(l, b);
    LastBlockEnds(l);
    NextOffset(l, b);
  }

  /**
    build_datagram: the seek is skipped when the block follows the one read
    last, because the file position is then already right.
  */
  class BlockReader {
    const l: Layout
    var lastBlock: nat
    var pos: nat
    var buffer: seq<Byte>

    ghost predicate Valid()
      reads this
    {
      && ValidLayout(l)
      && |buffer| == l.blockSize
      && lastBlock <= BlockCount(l)
      && (lastBlock < BlockCount(l) ==> pos == Offset(l, lastBlock + 1))
    }

    constructor (l: Layout)
      requires ValidLayout(l)
      ensures Valid() && this.l == l && lastBlock == 0
      ensures forall i :: 0 <= i < |buffer| ==> buffer[i] == 0
    {
      this.l := l;
      lastBlock := 0;
      pos := 0;
      buffer := seq(l.blockSize, _ => 0);
    }

    method Build(b: nat)
      requires Valid() && 1 <= b <= BlockCount(l)
      modifies this
      ensures Valid() && lastBlock == b
      ensures buffer == ReadBlock(l, b, old(buffer))
    {
      ReadSteps(l, b);
      if b != lastBlock + 1 {
        pos := Offset(l, b);
      }
      buffer := ReadAt(l, pos, buffer);
      pos := pos + ReadLength(l, pos);
      lastBlock := b;
    }
  }

  // ----- the client writes a block ------------------------------------------------

  /** fseeko and fwrite: a gap before the written range reads as zeros. */
  function WriteAt(file: seq<Byte>, offset: nat, data: seq<Byte>): (r: seq<Byte>) {
    var padded := if |file| < offset then file + seq(offset - |file|, _ => 0) else file;
    padded[..offset] + data + (if offset + |data| < |padded| then padded[offset + |data|..] else [])
  }

  lemma WriteAtBytes(file: seq<Byte>, offset: nat, data: seq<Byte>)
    requires |data| > 0
    ensures |WriteAt(file, offset, data)| == Max(|file|, offset + |data|)
    ensures WriteAt(file, offset, data)[offset..offset + |data|] == data
    ensures forall i :: 0 <= i < |file| && !(offset <= i < offset + |data|) ==>
              WriteAt(file, offset, data)[i] == file[i]
    ensures forall i :: |file| <= i < offset ==> WriteAt(file, offset, data)[i] == 0
  {
  }

  function AcceptBlock(l: Layout, file: seq<Byte>, b: nat, payload: seq<Byte>): seq<Byte>
    requires l.blockSize >= 1 && 1 <= b
  {
    WriteAt(file, Offset(l, b), payload[..Min(WriteSize(l, b), |payload|)])
  }

  ghost predicate HasBlock(l: Layout, file: seq<Byte>, b: nat)
    requires ValidLayout(l) && 1 <= b <= BlockCount(l)
  {
    && Offset(l, b) + WriteSize(l, b) <= |file|
    && file[Offset(l, b)..Offset(l, b) + WriteSize(l, b)] == BlockSlice(l, b)
  }

  /** Writing a block puts it in place, disturbs no other and never outgrows the source. */
  lemma AcceptBlockPlaces(l: Layout, file: seq<Byte>, b: nat, payload: seq<Byte>, other: nat)
    requires ValidLayout(l) && Carries(l, b, payload)
    requires 1 <= other <= BlockCount(l)
    requires |file| <= |l.source|
    ensures var file' := AcceptBlock(l, file, b, payload);
            && |file'| <= |l.source|
            && HasBlock(l, file', b)
            && (HasBlock(l, file, other) ==> HasBlock(l, file', other))
  {
    var file' := AcceptBlock(l, file, b, payload);
    BlockInside(l, b);
    BlockInside(l, other);
    WriteAtBytes(file, Offset(l, b), payload[..WriteSize(l, b)]);
    if HasBlock(l, file, other) && other != b {
      BlocksDisjoint(l, if b < other then b else other, if b < other then other else b);
      var lo, hi := Offset(l, other), Offset(l, other) + WriteSize(l, other);
      forall i | lo <= i < hi ensures file'[i] == file[i] {
      }
      assert file'[lo..hi] == file[lo..hi];
    }
  }

  /** A file that holds every block and is no longer than the source is the source. */
  lemma AllBlocksGiveSource(l: Layout, file: seq<Byte>)
    requires ValidLayout(l) && |file| <= |l.source|
    requires forall b :: 1 <= b <= BlockCount(l) ==> HasBlock(l, file, b)
    ensures file == l.source
  {
    LastBlockEnds(l);
    assert HasBlock(l, file, BlockCount(l));
    forall i | 0 <= i < |file| ensures file[i] == l.source[i] {
      BlockOfByte(l, i);
      var b := i / l.blockSize + 1;
      assert HasBlock(l, file, b);
      var lo := Offset(l, b);
      assert file[lo..lo + WriteSize(l, b)][i - lo] == BlockSlice(l, b)[i - lo];
    }
  }
}
