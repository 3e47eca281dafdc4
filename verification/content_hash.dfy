// The Dropbox content hash: a streaming block hasher equals its chunked definition.
module ContentHash {
  import opened Common

  /// SHA-256 (FIPS 180-4) is left uninterpreted: any function from bytes to bytes.
  type Sha = seq<byte> -> seq<byte>

  const BLOCK_SIZE: nat := 4 * 1024 * 1024
  const READ_SIZE: nat := 8192

  // ---- The definition ----

  /// The consecutive 4 MiB blocks of a file: the last one shorter, none for an empty file.
  function Blocks(data: seq<byte>): (r: seq<seq<byte>>)
  {
    if data == [] then []
    else if |data| <= BLOCK_SIZE then [data]
    else [data[..BLOCK_SIZE]] + Blocks(data[BLOCK_SIZE..])
  }

  function Concat(parts: seq<seq<byte>>): seq<byte> {
    if parts == [] then [] else parts[0] + Concat(parts[1..])
  }

  function Digests(sha: Sha, blocks: seq<seq<byte>>): seq<byte> {
    if blocks == [] then [] else sha(blocks[0]) + Digests(sha, blocks[1..])
  }

  function ContentHash(sha: Sha, data: seq<byte>): seq<byte> {
    sha(Digests(sha, Blocks(data)))
  }

  /// A division of `data` into full blocks of 4 MiB with a non-empty, possibly short, last one.
  ghost predicate IsBlockDivision(data: seq<byte>, parts: seq<seq<byte>>) {
    && Concat(parts) == data
    && (forall i :: 0 <= i < |parts| ==> 0 < |parts[i]| <= 0x40_0000)
    && (forall i :: 0 <= i < |parts| - 1 ==> |parts[i]| == 0x40_0000)
  }

  lemma {:induction false} BlocksDivide(data: seq<byte>)
    ensures IsBlockDivision(data, Blocks(data))
  {
    if data != [] {
      if |data| > BLOCK_SIZE {
        BlocksDivide(data[BLOCK_SIZE..]);
        assert Blocks(data)[1..] == Blocks(data[BLOCK_SIZE..]);
        assert Blocks(data[BLOCK_SIZE..]) != [];
      } else {
        assert Concat([data]) == data + Concat([]);
      }
    }
  }

  /// There is only one such division, so `Blocks` is the reference chunking.
  lemma {:induction false} BlockDivisionIsUnique(data: seq<byte>, parts: seq<seq<byte>>)
    requires IsBlockDivision(data, parts)
    ensures parts == Blocks(data)
  {
    if parts != [] {
      var rest := parts[1..];
      assert data == parts[0] + Concat(rest);
      if rest == [] {
        assert data == parts[0];
      } else {
        assert |parts[0]| == BLOCK_SIZE && |rest[0]| > 0;
        assert Concat(rest) == rest[0] + Concat(rest[1..]);
        assert data[BLOCK_SIZE..] == Concat(rest) && data[..BLOCK_SIZE] == parts[0];
        forall i | 0 <= i < |rest| ensures 0 < |rest[i]| <= BLOCK_SIZE && (i < |rest| - 1 ==> |rest[i]| == BLOCK_SIZE) {
          assert rest[i] == parts[i + 1];
        }
        BlockDivisionIsUnique(data[BLOCK_SIZE..], rest);
      }
    }
  }

  // ---- Streaming ----

  /// A full prefix contributes its own blocks and leaves the others as they are.
  lemma {:induction false} BlocksAfterFull(full: seq<byte>, tail: seq<byte>)
    requires |full| % BLOCK_SIZE == 0
    ensures Blocks(full + tail) == Blocks(full) + Blocks(tail)
    decreases |full|
  {
    if full == [] {
      assert full + tail == tail;
    } else {
      var first, rest := full[..BLOCK_SIZE], full[BLOCK_SIZE..];
      BlocksAfterFull(rest, tail);
      assert (full + tail)[BLOCK_SIZE..] == rest + tail && (full + tail)[..BLOCK_SIZE] == first;
      assert Blocks(full) == [first] + Blocks(rest);
      if rest + tail == [] {
        assert full + tail == first == full && rest == [] && tail == [];
      } else {
        assert Blocks(full + tail) == [first] + Blocks(rest + tail);
      }
    }
  }

  lemma Associative(x: seq<byte>, y: seq<byte>, z: seq<byte>)
    ensures (x + y) + z == x + (y + z)
  {
  }

  lemma {:induction false} DigestsAppend(sha: Sha, a: seq<seq<byte>>, b: seq<seq<byte>>)
    ensures Digests(sha, a + b) == Digests(sha, a) + Digests(sha, b)
  {
    if a == [] {
      assert a + b == b;
    } else {
      DigestsAppend(sha, a[1..], b);
      assert (a + b)[0] == a[0] && (a + b)[1..] == a[1..] + b;
      Associative(sha(a[0]), Digests(sha, a[1..]), Digests(sha, b));
    }
  }

  /// What the hasher holds after `seen`: the digests of the full blocks, and the bytes since.
  ghost predicate Progress(sha: Sha, digests: seq<byte>, open: seq<byte>, seen: seq<byte>) {
    && |open| <= |seen| && open == seen[|seen| - |open|..]
    && (|seen| - |open|) % BLOCK_SIZE == 0
    && digests == Digests(sha, Blocks(seen[..|seen| - |open|]))
  }

  lemma Absorb(sha: Sha, digests: seq<byte>, open: seq<byte>, seen: seq<byte>, part: seq<byte>)
    requires Progress(sha, digests, open, seen)
    ensures Progress(sha, digests, open + part, seen + part)
  {
    assert (seen + part)[..|seen| - |open|] == seen[..|seen| - |open|];
  }

  /// Closing a block appends its digest, whether it is full or the trailing one.
  lemma CloseBlock(sha: Sha, digests: seq<byte>, open: seq<byte>, seen: seq<byte>)
    requires Progress(sha, digests, open, seen) && 0 < |open| <= BLOCK_SIZE
    ensures digests + sha(open) == Digests(sha, Blocks(seen))
  {
    var full := seen[..|seen| - |open|];
    assert seen == full + open;
    AfterFull(sha, full, open);
  }

  lemma CloseFullBlock(sha: Sha, digests: seq<byte>, open: seq<byte>, seen: seq<byte>)
    requires Progress(sha, digests, open, seen) && |open| == BLOCK_SIZE
    ensures Progress(sha, digests + sha(open), [], seen)
  {
    CloseBlock(sha, digests, open, seen);
    assert seen[..|seen| - 0] == seen;
  }

  lemma AfterFull(sha: Sha, full: seq<byte>, open: seq<byte>)
    requires |full| % BLOCK_SIZE == 0 && 0 < |open| <= BLOCK_SIZE
    ensures Digests(sha, Blocks(full + open)) == Digests(sha, Blocks(full)) + sha(open)
  {
    BlocksAfterFull(full, open);
    OneBlock(sha, open);
    DigestsAppend(sha, Blocks(full), [open]);
  }

  lemma OneBlock(sha: Sha, open: seq<byte>)
    requires 0 < |open| <= BLOCK_SIZE
    ensures Blocks(open) == [open] && Digests(sha, [open]) == sha(open)
  {
    assert [open][1..] == [];
    assert sha(open) + [] == sha(open);
  }

  lemma StartOfFile(sha: Sha)
    ensures Progress(sha, [], [], [])
  {
  }

  /// At the end of the file, the open block closes if there is one.
  lemma EndOfFile(sha: Sha, digests: seq<byte>, open: seq<byte>, data: seq<byte>)
    requires Progress(sha, digests, open, data) && |open| < BLOCK_SIZE
    ensures ContentHash(sha, data) == sha(if open == [] then digests else digests + sha(open))
  {
    if open != [] {
      CloseBlock(sha, digests, open, data);
    } else {
      assert data[..|data| - 0] == data;
    }
  }

  class Hasher {
    const sha: Sha
    var absorbed: seq<byte>

    constructor (sha: Sha)
      ensures this.sha == sha && absorbed == []
    {
      this.sha := sha;
      absorbed := [];
    }

    method Update(data: seq<byte>)
      modifies this
      ensures absorbed == old(absorbed) + data
    {
      absorbed := absorbed + data;
    }

    method FinalizeReset() returns (digest: seq<byte>)
      modifies this
      ensures digest == sha(old(absorbed)) && absorbed == []
    {
      digest := sha(absorbed);
      absorbed := [];
    }
  }

  /// An open file: each read returns some bytes, and none only at the end.
  class OpenFile {
    const data: seq<byte>
    var position: nat

    ghost predicate Valid() reads this { position <= |data| }

    constructor (data: seq<byte>)
      ensures this.data == data && position == 0
    {
      this.data := data;
      position := 0;
    }

    method Read(capacity: nat) returns (chunk: seq<byte>)
      requires Valid() && capacity > 0
      modifies this
      ensures Valid() && position == old(position) + |chunk| && |chunk| <= capacity
      ensures chunk == data[old(position)..position]
      ensures chunk == [] <==> old(position) == |data|
    {
      var n: int := *;
      var most := if capacity <= |data| - position then capacity else |data| - position;
      n := if n < 1 then 1 else n;
      n := if n <= most then n else most;
      chunk := data[position..position + n];
      position := position + n;
    }
  }

  /// The inner loop: feeds one read to the block hasher, closing every block it fills.
  method ConsumeChunk(blockHasher: Hasher, digestsBefore: seq<byte>, chunk: seq<byte>, ghost before: seq<byte>)
    returns (blockDigests: seq<byte>)
    requires |blockHasher.absorbed| < BLOCK_SIZE
    requires Progress(blockHasher.sha, digestsBefore, blockHasher.absorbed, before)
    modifies blockHasher
    ensures |blockHasher.absorbed| < BLOCK_SIZE
    ensures Progress(blockHasher.sha, blockDigests, blockHasher.absorbed, before + chunk)
  {
    blockDigests := digestsBefore;
    var sha, bytesInBlock, remaining := blockHasher.sha, |blockHasher.absorbed|, chunk;
    ghost var seen := before;
    while remaining != []
      invariant bytesInBlock == |blockHasher.absorbed| < BLOCK_SIZE
      invariant Progress(sha, blockDigests, blockHasher.absorbed, seen)
      invariant seen + remaining == before + chunk
      decreases |remaining|
    {
      var spaceInBlock := BLOCK_SIZE - bytesInBlock;
      var toConsume := if |remaining| <= spaceInBlock then |remaining| else spaceInBlock;
      Absorb(sha, blockDigests, blockHasher.absorbed, seen, remaining[..toConsume]);
      blockHasher.Update(remaining[..toConsume]);
      bytesInBlock := bytesInBlock + toConsume;
      assert (seen + remaining[..toConsume]) + remaining[toConsume..] == seen + remaining;
      seen := seen + remaining[..toConsume];
      remaining := remaining[toConsume..];
      if bytesInBlock == BLOCK_SIZE {
        CloseFullBlock(sha, blockDigests, blockHasher.absorbed, seen);
        var digest := blockHasher.FinalizeReset();
        blockDigests := blockDigests + digest;
        bytesInBlock := 0;
      }
    }
    assert seen == before + chunk;
  }

  lemma SliceGrows(data: seq<byte>, i: nat, j: nat)
    requires i <= j <= |data|
    ensures data[..i] + data[i..j] == data[..j] && data[..|data|] == data
  {
  }

  /// Hashes a file of which every read returns however many bytes it likes.
  method HashFile(sha: Sha, file: OpenFile) returns (hash: seq<byte>)
    requires file.Valid() && file.position == 0
    modifies file
    ensures hash == ContentHash(sha, file.data)
  {
    var blockDigests: seq<byte> := [];
    var blockHasher := new Hasher(sha);
    ghost var seen: seq<byte> := [];
    StartOfFile(sha);

    while true
      invariant file.Valid() && blockHasher.sha == sha && fresh(blockHasher)
      invariant |blockHasher.absorbed| < BLOCK_SIZE
      invariant seen == file.data[..file.position]
      invariant Progress(sha, blockDigests, blockHasher.absorbed, seen)
      decreases |file.data| - file.position
    {
      ghost var before := file.position;
      var chunk := file.Read(READ_SIZE);
      SliceGrows(file.data, before, file.position);
      if chunk == [] {
        break;
      }
      blockDigests := ConsumeChunk(blockHasher, blockDigests, chunk, seen);
      seen := seen + chunk;
    }

    assert seen == file.data;
    EndOfFile(sha, blockDigests, blockHasher.absorbed, seen);
    if blockHasher.absorbed != [] {
      var digest := blockHasher.FinalizeReset();
      blockDigests := blockDigests + digest;
    }
    hash := sha(blockDigests);
  }
}
