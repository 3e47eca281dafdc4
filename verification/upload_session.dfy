// The resumable chunked upload: a client loop against a server that may lose answers, expire
// sessions and reject anything, with a checkpoint that survives crashes.
module UploadSession {
  import opened Common

  const CHUNK_SIZE: nat := 8 * 1024 * 1024

  /// The two questions the client asks of an error; nothing is assumed about either answer.
  datatype Error = Error(transient: bool, sessionInvalid: bool)

  datatype Answer = Done(session: nat) | Failed(error: Error) | Died

  datatype Op =
    | Start
    | Append(session: nat, offset: nat, chunk: seq<byte>)
    | Finish(session: nat, offset: nat, chunk: seq<byte>)

  datatype Checkpoint = Checkpoint(session: nat, offset: nat, len: nat, mtime: int)

  /// The file of one attempt: the bytes its handle reads, the length the caller captured before
  /// and the modification time.
  datatype LocalFile = LocalFile(data: seq<byte>, len: nat, mtime: int)

  // ---- The server ----

  /// Session ids are handed out in order; `commits` is the history of the destination.
  datatype Server = Server(issued: nat, sessions: map<nat, seq<byte>>, commits: seq<seq<byte>>)

  predicate Accepts(s: Server, op: Op) {
    op.Start? || (op.session in s.sessions && |s.sessions[op.session]| == op.offset)
  }

  function Applied(s: Server, op: Op): Server
    requires Accepts(s, op)
  {
    match op
    case Start => Server(s.issued + 1, s.sessions[s.issued := []], s.commits)
    case Append(id, _, chunk) => s.(sessions := s.sessions[id := s.sessions[id] + chunk])
    case Finish(id, _, chunk) => Server(s.issued, s.sessions - {id}, s.commits + [s.sessions[id] + chunk])
  }

  /// Sessions may expire between requests.
  predicate Expired(s: Server, t: Server) {
    && t.issued == s.issued && t.commits == s.commits
    && forall id :: id in t.sessions ==> id in s.sessions && t.sessions[id] == s.sessions[id]
  }

  /// One request. The server may refuse a request it could accept, the answer of one that took
  /// effect may be lost or replaced by any error, and only one that took effect answers `Done`.
  ghost predicate Step(s: Server, op: Op, t: Server, answer: Answer) {
    exists mid :: Expired(s, mid) &&
      ((t == mid && !answer.Done?)
       || (Accepts(mid, op) && t == Applied(mid, op) && (answer.Done? && op.Start? ==> answer.session == s.issued)))
  }

  /// Sessions were opened, filled further or expired.
  ghost predicate Grown(s: Server, t: Server) {
    && s.issued <= t.issued
    && forall id :: id in t.sessions && id < s.issued ==> id in s.sessions && s.sessions[id] <= t.sessions[id]
  }

  lemma StepGrows(s: Server, op: Op, t: Server, answer: Answer)
    requires Step(s, op, t, answer)
    ensures Grown(s, t) && (!op.Start? ==> t.issued == s.issued)
    ensures answer.Done? && op.Start? ==> answer.session in t.sessions && t.sessions[answer.session] == []
    ensures answer.Done? && op.Append? ==> HasExactly(t, op.session, op.offset + |op.chunk|)
  {
  }

  /// The next request at `offset` will be accepted.
  predicate HasExactly(s: Server, session: nat, offset: nat) {
    session in s.sessions && |s.sessions[session]| == offset
  }

  /// What a server does to a request when nothing goes wrong: it takes what it can accept, and says
  /// of a session it does not have, or has at another offset, that it is invalid.
  predicate IsHonest(s: Server, op: Op, answer: Answer) {
    if Accepts(s, op) then answer.Done? else answer == Failed(Error(false, true))
  }

  /// A failure the client may retry, and that left everything as it was.
  predicate IsHiccup(s: Server, t: Server, answer: Answer) {
    answer.Failed? && answer.error.transient && t == s
  }

  predicate GoesWell(s: Server, op: Op, t: Server, answer: Answer) {
    IsHonest(s, op, answer) || IsHiccup(s, t, answer)
  }

  // ---- What one attempt commits ----

  /// Where the last chunk of a file of `len` bytes starts.
  function LastStart(len: nat): nat {
    if len == 0 then 0 else (len - 1) / CHUNK_SIZE * CHUNK_SIZE
  }

  function Min(a: nat, b: nat): nat {
    if a < b then a else b
  }

  /// What the chunk read at `offset` holds.
  function ChunkAt(file: LocalFile, offset: nat): seq<byte>
    requires offset <= |file.data|
  {
    file.data[offset..Min(|file.data|, offset + CHUNK_SIZE)]
  }

  /// The bytes an attempt commits, if it commits any.
  function Snapshot(file: LocalFile): seq<byte> {
    file.data[..Min(|file.data|, LastStart(file.len) + CHUNK_SIZE)]
  }

  predicate IsFinalChunk(offset: nat, bytesRead: nat, len: nat) {
    offset + bytesRead >= len
  }

  /// A file whose length did not change after it was captured is committed exactly.
  lemma SnapshotOfUnchangedFile(file: LocalFile)
    requires |file.data| == file.len
    ensures Snapshot(file) == file.data
  {
  }

  /// A file truncated after its length was captured is committed as it is now.
  lemma SnapshotOfTruncatedFile(file: LocalFile)
    requires |file.data| <= file.len
    ensures Snapshot(file) == file.data
  {
  }

  /// The final read takes whatever fits in the buffer, so growth beyond the captured length is
  /// left out exactly when the file did not grow or its length is a positive multiple of the
  /// chunk size.
  lemma GrowthIsIgnoredExactlyWhen(file: LocalFile)
    requires |file.data| >= file.len
    ensures Snapshot(file) == file.data[..file.len] <==>
      |file.data| == file.len || (file.len > 0 && file.len % CHUNK_SIZE == 0)
  {
    var cut := Min(|file.data|, LastStart(file.len) + CHUNK_SIZE);
    assert cut >= file.len;
    assert |Snapshot(file)| == cut;
    if file.len > 0 && file.len % CHUNK_SIZE == 0 {
      assert LastStart(file.len) + CHUNK_SIZE == file.len;
    }
    if cut == file.len && |file.data| != file.len {
      assert LastStart(file.len) + CHUNK_SIZE == file.len;
    }
  }

  lemma GrowthIsNotIgnored(a: byte, b: byte)
    ensures Snapshot(LocalFile([a, b], 1, 0)) == [a, b]
  {
  }

  // ---- Invariants ----

  /// An offset an attempt on `file` can stand at.
  predicate ValidOffset(offset: nat, file: LocalFile) {
    && offset <= |file.data|
    && (offset % CHUNK_SIZE == 0 || offset == |file.data|)
    && (offset < file.len || offset == 0)
  }

  predicate ValidBuffer(buffer: seq<byte>, file: LocalFile) {
    buffer <= file.data && ValidOffset(|buffer|, file)
  }

  /// `origin[id]` is the file the session `id` was opened for; length and modification time
  /// identify the content.
  ghost predicate Inv(s: Server, origin: seq<LocalFile>, contentOf: (nat, int) -> seq<byte>) {
    && |origin| == s.issued
    && (forall id :: 0 <= id < |origin| ==> origin[id].data == contentOf(origin[id].len, origin[id].mtime))
    && forall id :: id in s.sessions ==> id < |origin| && ValidBuffer(s.sessions[id], origin[id])
  }

  predicate CheckpointOk(ck: Option<Checkpoint>, origin: seq<LocalFile>) {
    ck.Some? ==>
      var c := ck.value;
      && c.session < |origin| && origin[c.session].len == c.len && origin[c.session].mtime == c.mtime
      && ValidOffset(c.offset, origin[c.session])
  }

  /// The checkpoint runs behind the server: what it counts as sent is there, if the session is.
  predicate CheckpointIsBehind(ck: Option<Checkpoint>, s: Server) {
    ck.Some? && ck.value.session in s.sessions ==> ck.value.offset <= |s.sessions[ck.value.session]|
  }

  lemma GrowingKeepsBehind(ck: Option<Checkpoint>, origin: seq<LocalFile>, s: Server, t: Server)
    requires CheckpointOk(ck, origin) && |origin| == s.issued && CheckpointIsBehind(ck, s) && Grown(s, t)
    ensures CheckpointIsBehind(ck, t)
  {
  }

  /// The checkpoint is one of this very file.
  predicate IsOf(ck: Option<Checkpoint>, file: LocalFile) {
    ck.Some? && ck.value.offset <= file.len && ck.value.len == file.len && ck.value.mtime == file.mtime
  }

  /// A request an attempt on `file` makes.
  predicate GoodOp(op: Op, file: LocalFile, origin: seq<LocalFile>) {
    match op
    case Start => true
    case Append(id, offset, chunk) =>
      && id < |origin| && origin[id] == file && ValidOffset(offset, file)
      && chunk == ChunkAt(file, offset) && chunk != [] && !IsFinalChunk(offset, |chunk|, file.len)
    case Finish(id, offset, chunk) =>
      && id < |origin| && origin[id] == file && ValidOffset(offset, file)
      && chunk == ChunkAt(file, offset) && (chunk == [] || IsFinalChunk(offset, |chunk|, file.len))
  }

  lemma GoodOpStays(op: Op, file: LocalFile, origin: seq<LocalFile>, longer: seq<LocalFile>)
    requires GoodOp(op, file, origin) && origin <= longer
    ensures GoodOp(op, file, longer)
  {
  }

  /// Every commit after `before` is the snapshot of `file`.
  ghost predicate CommitsOnly(before: seq<seq<byte>>, after: seq<seq<byte>>, file: LocalFile) {
    before <= after && forall i :: |before| <= i < |after| ==> after[i] == Snapshot(file)
  }

  /// Every commit after `before` is the snapshot of one of `files`.
  ghost predicate CommitsAmong(before: seq<seq<byte>>, after: seq<seq<byte>>, files: seq<LocalFile>) {
    && before <= after
    && forall i :: |before| <= i < |after| ==> exists file :: file in files && after[i] == Snapshot(file)
  }

  lemma CommitsAccumulate(start: seq<seq<byte>>, before: seq<seq<byte>>, after: seq<seq<byte>>, file: LocalFile,
                          files: seq<LocalFile>)
    requires CommitsAmong(start, before, files) && CommitsOnly(before, after, file) && file in files
    ensures CommitsAmong(start, after, files)
  {
    forall i | |start| <= i < |after| ensures exists f :: f in files && after[i] == Snapshot(f) {
      if i < |before| {
        assert after[i] == before[i];
      }
    }
  }

  /// Seconds slept between `calls` calls: two more after each.
  function TotalBackoff(calls: nat): nat {
    if calls <= 1 then 0 else TotalBackoff(calls - 1) + 2 * (calls - 1)
  }

  lemma {:induction false} TotalBackoffIs(calls: nat)
    requires calls > 0
    ensures TotalBackoff(calls) == calls * (calls - 1)
  {
    if calls > 1 {
      TotalBackoffIs(calls - 1);
      assert (calls - 1) * (calls - 2) + 2 * (calls - 1) == calls * (calls - 1);
    }
  }

  /// Wherever an attempt stands, the chunk it finishes with completes the snapshot.
  lemma FinishCompletesSnapshot(buffer: seq<byte>, chunk: seq<byte>, file: LocalFile)
    requires ValidBuffer(buffer, file)
    requires chunk == ChunkAt(file, |buffer|) && (chunk == [] || IsFinalChunk(|buffer|, |chunk|, file.len))
    ensures buffer + chunk == Snapshot(file)
  {
    var offset := |buffer|;
    assert buffer == file.data[..offset];
    assert offset + |chunk| == Min(|file.data|, LastStart(file.len) + CHUNK_SIZE);
  }

  lemma AppendStaysValid(buffer: seq<byte>, chunk: seq<byte>, file: LocalFile)
    requires ValidBuffer(buffer, file) && chunk == ChunkAt(file, |buffer|) && chunk != []
    requires !IsFinalChunk(|buffer|, |chunk|, file.len)
    ensures ValidBuffer(buffer + chunk, file)
  {
    assert buffer + chunk == file.data[..|buffer| + |chunk|];
    assert |buffer| % CHUNK_SIZE == 0;
  }

  /// The request an attempt at `offset` makes with the chunk it read: an empty chunk before the
  /// captured length means the file was truncated, and finishes the session.
  function NextOp(session: nat, offset: nat, chunk: seq<byte>, len: nat): Op {
    if chunk == [] && !IsFinalChunk(offset, |chunk|, len) then Finish(session, offset, [])
    else if IsFinalChunk(offset, |chunk|, len) then Finish(session, offset, chunk)
    else Append(session, offset, chunk)
  }

  lemma NextOpIsGood(session: nat, offset: nat, chunk: seq<byte>, file: LocalFile, origin: seq<LocalFile>)
    requires session < |origin| && origin[session] == file
    requires ValidOffset(offset, file) && chunk == ChunkAt(file, offset)
    ensures var op := NextOp(session, offset, chunk, file.len);
      GoodOp(op, file, origin) &&
      (op.Append? ==> offset < offset + |chunk| < file.len && ValidOffset(offset + |chunk|, file))
  {
    if NextOp(session, offset, chunk, file.len).Append? {
      AppendStaysValid(file.data[..offset], chunk, file);
    }
  }

  function NewOrigin(before: nat, after: nat, origin: seq<LocalFile>, file: LocalFile): seq<LocalFile> {
    if after == before then origin else origin + [file]
  }

  lemma AppliedKeepsInv(s: Server, op: Op, file: LocalFile, origin: seq<LocalFile>, contentOf: (nat, int) -> seq<byte>)
    requires Inv(s, origin, contentOf) && GoodOp(op, file, origin) && file.data == contentOf(file.len, file.mtime)
    requires Accepts(s, op)
    ensures var t := Applied(s, op);
      Inv(t, NewOrigin(s.issued, t.issued, origin, file), contentOf) && CommitsOnly(s.commits, t.commits, file)
  {
    match op
    case Start =>
    case Append(id, offset, chunk) =>
      AppendStaysValid(s.sessions[id], chunk, file);
    case Finish(id, offset, chunk) =>
      FinishCompletesSnapshot(s.sessions[id], chunk, file);
  }

  /// Every request of an attempt keeps the invariant, whatever the server answers, and commits
  /// nothing but the snapshot of the attempt's own file.
  lemma StepKeepsInv(s: Server, op: Op, t: Server, answer: Answer, file: LocalFile, origin: seq<LocalFile>,
                     contentOf: (nat, int) -> seq<byte>)
    requires Inv(s, origin, contentOf) && GoodOp(op, file, origin) && file.data == contentOf(file.len, file.mtime)
    requires Step(s, op, t, answer)
    ensures Inv(t, NewOrigin(s.issued, t.issued, origin, file), contentOf)
    ensures CommitsOnly(s.commits, t.commits, file)
    ensures answer.Done? && op.Finish? ==> |t.commits| > |s.commits|
    ensures s.issued <= t.issued <= s.issued + 1
    ensures answer.Done? && op.Start? ==> t.issued == s.issued + 1 && answer.session == s.issued
  {
    var mid :| Expired(s, mid) &&
      ((t == mid && !answer.Done?)
       || (Accepts(mid, op) && t == Applied(mid, op) && (answer.Done? && op.Start? ==> answer.session == s.issued)));
    assert Inv(mid, origin, contentOf);
    if t != mid {
      AppliedKeepsInv(mid, op, file, origin, contentOf);
    }
  }

  // ---- The client ----

  class Dropbox {
    var server: Server
    ghost var origin: seq<LocalFile>
    ghost var hiccups: nat  // requests that failed for the moment, without effect
    const env: Environment
    ghost const contentOf: (nat, int) -> seq<byte>

    ghost predicate Valid() reads this {
      Inv(server, origin, contentOf)
    }

    ghost predicate Knows(file: LocalFile) {
      file.data == contentOf(file.len, file.mtime)
    }

    constructor (env: Environment, ghost contentOf: (nat, int) -> seq<byte>)
      ensures Valid() && this.env == env && this.contentOf == contentOf && origin == [] && server.commits == []
    {
      this.server := Server(0, map[], []);
      this.origin := [];
      hiccups := 0;
      this.env := env;
      this.contentOf := contentOf;
    }

    /// One HTTP request, as the server sees it. What goes wrong is a lost or false answer, a refusal
    /// of an acceptable request, or that the session expires; a hiccup is counted apart.
    method Request(op: Op) returns (answer: Answer)
      modifies this`server, this`hiccups, env
      ensures Step(old(server), op, server, answer)
      ensures hiccups == old(hiccups) + if IsHiccup(old(server), server, answer) then 1 else 0
      ensures env.faults == old(env.faults) + if GoesWell(old(server), op, server, answer) then 0 else 1
    {
      ghost var before := server;
      var expired: set<nat> := *;
      var takesEffect: bool := *;
      var heard: Answer := *;
      var mid := server.(sessions := server.sessions - expired);
      assert Expired(server, mid);
      if takesEffect && Accepts(mid, op) {
        answer := if heard.Done? then Done(mid.issued) else heard;
        server := Applied(mid, op);
      } else {
        answer := if heard.Done? then Failed(Error(false, true)) else heard;
        server := mid;
      }
      env.Count(!GoesWell(before, op, server, answer));
      hiccups := hiccups + if IsHiccup(before, server, answer) then 1 else 0;
    }

    /// One request of an attempt on `file`.
    method Call(op: Op, ghost file: LocalFile) returns (answer: Answer)
      requires Valid() && Knows(file) && GoodOp(op, file, origin)
      modifies this, env
      ensures Valid() && CommitsOnly(old(server.commits), server.commits, file)
      ensures old(origin) <= origin && Grown(old(server), server)
      ensures answer.Done? ==> HasAnswered(op, answer, file)
      ensures answer.Done? && op.Start? ==> answer.session == |old(origin)|
      ensures answer.Done? && op.Finish? ==> |server.commits| > |old(server.commits)|
      ensures !op.Start? ==> server.issued == old(server.issued)
      ensures hiccups == old(hiccups) + if IsHiccup(old(server), server, answer) then 1 else 0
      ensures env.faults == old(env.faults) + if GoesWell(old(server), op, server, answer) then 0 else 1
    {
      ghost var before := server;
      answer := Request(op);
      StepKeepsInv(before, op, server, answer, file, origin, contentOf);
      StepGrows(before, op, server, answer);
      origin := NewOrigin(before.issued, server.issued, origin, file);
    }

    /// What a request that answered left: a fresh session of the file, or the chunk in its session.
    ghost predicate HasAnswered(op: Op, answer: Answer, file: LocalFile)
      requires answer.Done?
      reads this
    {
      && (op.Start? ==>
           && answer.session < |origin| && origin[answer.session] == file
           && HasExactly(server, answer.session, 0))
      && (op.Append? ==> HasExactly(server, op.session, op.offset + |op.chunk|))
    }

    /// Retries a request while its error is transient, at most `maxAttempts` times in all, with a
    /// linear backoff.
    method RetryTransient(op: Op, maxAttempts: nat, ghost file: LocalFile)
      returns (answer: Answer, ghost answers: seq<Answer>, ghost slept: nat)
      requires Valid() && Knows(file) && GoodOp(op, file, origin)
      modifies this, env
      ensures Valid() && CommitsOnly(old(server.commits), server.commits, file)
      ensures old(origin) <= origin && Grown(old(server), server)
      ensures answer.Done? ==> HasAnswered(op, answer, file)
      ensures answer.Done? && op.Start? ==> answer.session >= |old(origin)|
      ensures answer.Done? && op.Finish? ==> |server.commits| > |old(server.commits)|
      ensures !op.Start? ==> server.issued == old(server.issued)
      ensures env.faults >= old(env.faults) && hiccups >= old(hiccups)
      // If nothing but hiccups goes wrong, and not in every attempt, the last answer is honest.
      ensures env.faults == old(env.faults) && hiccups < old(hiccups) + maxAttempts ==>
                IsHonest(old(server), op, answer)
      ensures 1 <= |answers| <= (if maxAttempts == 0 then 1 else maxAttempts) && answers[|answers| - 1] == answer
      ensures forall i :: 0 <= i < |answers| - 1 ==> answers[i].Failed? && answers[i].error.transient
      ensures answer.Failed? && answer.error.transient ==> |answers| >= maxAttempts
      ensures slept == TotalBackoff(|answers|)
    {
      var attempt := 1;
      answers, slept := [], 0;
      while true
        invariant Valid() && CommitsOnly(old(server.commits), server.commits, file)
        invariant old(origin) <= origin && Grown(old(server), server) && GoodOp(op, file, origin)
        invariant env.faults >= old(env.faults) && hiccups >= old(hiccups)
        invariant env.faults == old(env.faults) ==> server == old(server) && hiccups == old(hiccups) + attempt - 1
        invariant !op.Start? ==> server.issued == old(server.issued)
        invariant attempt == |answers| + 1 && (attempt == 1 || attempt <= maxAttempts)
        invariant forall i :: 0 <= i < |answers| ==> answers[i].Failed? && answers[i].error.transient
        invariant slept == TotalBackoff(attempt)
        decreases maxAttempts - attempt
      {
        ghost var before := origin;
        answer := Call(op, file);
        GoodOpStays(op, file, before, origin);
        answers := answers + [answer];
        if answer.Failed? && answer.error.transient && attempt < maxAttempts {
          slept := slept + 2 * attempt;
          attempt := attempt + 1;
          continue;
        }
        return;
      }
    }
  }

  /// The row of the upload job: where an interrupted upload resumes from.
  class JobRow {
    var checkpoint: Option<Checkpoint>
    const env: Environment

    constructor (env: Environment)
      ensures checkpoint == None && this.env == env
    {
      checkpoint := None;
      this.env := env;
    }

    method Load() returns (r: Reply<Option<Checkpoint>>)
      modifies env
      ensures r.Ok? ==> r.value == checkpoint
      ensures env.faults == old(env.faults) + if r.Ok? then 0 else 1
    {
      var read, _ := env.Answer(true);
      r := if read.Ok? then Ok(checkpoint) else if read.Err? then Err else Crash;
    }

    method Store(ck: Option<Checkpoint>) returns (r: Reply<Unit>)
      modifies this`checkpoint, env
      ensures r.Ok? ==> checkpoint == ck
      ensures r.Err? ==> checkpoint == old(checkpoint)
      ensures checkpoint == ck || checkpoint == old(checkpoint)
      ensures env.faults == old(env.faults) + if r.Ok? then 0 else 1
    {
      var applied;
      r, applied := env.Answer(true);
      if applied {
        checkpoint := ck;
      }
    }
  }

  /// An open file handle: reads come in pieces of any size and may fail.
  class FileHandle {
    const file: LocalFile
    var position: nat
    const env: Environment

    ghost predicate Valid() reads this {
      position <= |file.data|
    }

    constructor (file: LocalFile, env: Environment)
      ensures this.file == file && this.env == env && position == 0
    {
      this.file, this.env := file, env;
      position := 0;
    }

    method Seek(to: nat) returns (r: Reply<Unit>)
      requires Valid() && to <= |file.data|
      modifies this`position, env
      ensures Valid() && (r.Ok? ==> position == to)
      ensures env.faults == old(env.faults) + if r.Ok? then 0 else 1
    {
      var sought, _ := env.Answer(true);
      r := sought;
      if r.Ok? {
        position := to;
      }
    }

    method Read(buf: array<byte>, from: nat) returns (r: Reply<nat>)
      requires Valid() && from < buf.Length
      modifies this`position, buf, env
      ensures Valid() && buf[..from] == old(buf[..from])
      ensures r.Ok? ==> from + r.value <= buf.Length && position == old(position) + r.value
      ensures r.Ok? ==> buf[from..from + r.value] == file.data[old(position)..position]
      ensures r.Ok? ==> (r.value == 0 <==> old(position) == |file.data|)
      ensures env.faults == old(env.faults) + if r.Ok? then 0 else 1
    {
      var read, _ := env.Answer(true);
      r := if read.Crash? then Crash else Err;
      if read.Ok? {
        var some: nat := *;
        var most := Min(buf.Length - from, |file.data| - position);
        var n := if some == 0 then Min(1, most) else Min(some, most);
        var at := position;
        position := position + n;
        forall i | 0 <= i < n {
          buf[from + i] := file.data[at + i];
        }
        r := Ok(n);
      }
    }

    /// The inner loop: fills the buffer until it is full or the file ends.
    method FillBuffer(buf: array<byte>) returns (r: Reply<nat>)
      requires Valid() && buf.Length == CHUNK_SIZE
      modifies this`position, buf, env
      ensures Valid()
      ensures r.Ok? ==> r.value <= buf.Length && position == old(position) + r.value
      ensures r.Ok? ==> buf[..r.value] == ChunkAt(file, old(position))
      ensures env.faults == old(env.faults) + if r.Ok? then 0 else 1
    {
      var n := 0;
      ghost var start := position;
      while n < buf.Length
        invariant Valid() && n <= buf.Length && position == start + n && env.faults == old(env.faults)
        invariant buf[..n] == file.data[start..start + n]
        decreases buf.Length - n
      {
        ghost var sofar, at := buf[..n], position;
        r := Read(buf, n);
        if !r.Ok? {
          return;
        }
        if r.value == 0 {
          break;
        }
        assert buf[..n] == sofar;
        assert buf[..n + r.value] == buf[..n] + buf[n..n + r.value];
        assert file.data[start..at] + file.data[at..position] == file.data[start..position];
        n := n + r.value;
      }
      r := Ok(n);
    }
  }

  datatype Outcome = Committed | Errored | Crashed

  datatype Sent = Stopped(outcome: Outcome) | Appended | SessionLost

  function Exit<T>(r: Reply<T>): Outcome {
    if r.Crash? then Crashed else Errored
  }

  class Uploader {
    const dropbox: Dropbox
    const job: JobRow
    const env: Environment

    constructor (dropbox: Dropbox, job: JobRow)
      requires dropbox.env == job.env && dropbox.Valid() && job.checkpoint == None
      ensures Valid() && this.dropbox == dropbox && this.job == job
    {
      this.dropbox := dropbox;
      this.job := job;
      env := dropbox.env;
    }

    /// What every attempt finds and leaves, whichever way it ends.
    ghost predicate Valid()
      reads dropbox, job
    {
      && dropbox.env == env && job.env == env && dropbox.Valid()
      && CheckpointOk(job.checkpoint, dropbox.origin) && CheckpointIsBehind(job.checkpoint, dropbox.server)
    }

    /// Nothing went wrong but three requests at most that failed for the moment.
    twostate predicate IsSmooth() reads env, dropbox {
      env.faults == old(env.faults) && dropbox.hiccups <= old(dropbox.hiccups) + 3
    }

    twostate predicate NothingUndone() reads env, dropbox {
      env.faults >= old(env.faults) && dropbox.hiccups >= old(dropbox.hiccups)
    }

    /// Wherever an attempt stopped, a session that still lives holds all the checkpoint counts as sent.
    lemma CheckpointedBytesAreOnDropbox()
      requires Valid() && job.checkpoint.Some? && job.checkpoint.value.session in dropbox.server.sessions
      ensures var ck := job.checkpoint.value;
        dropbox.origin[ck.session].data[..ck.offset] <= dropbox.server.sessions[ck.session]
    {
    }

    /// Opens a fresh session and records it before anything is sent.
    method StartSession(ghost file: LocalFile, len: nat, mtime: int) returns (outcome: Option<Outcome>, sessionId: nat)
      requires Valid() && dropbox.Knows(file) && len == file.len && mtime == file.mtime
      modifies dropbox, job, env
      ensures Valid() && CommitsOnly(old(dropbox.server.commits), dropbox.server.commits, file)
      ensures old(dropbox.origin) <= dropbox.origin
      ensures outcome != Some(Committed)
      ensures outcome.None? ==> IsFresh(file, sessionId) && sessionId >= |old(dropbox.origin)|
      ensures job.checkpoint == old(job.checkpoint) || IsFreshlyNoted(file, |old(dropbox.origin)|)
      ensures NothingUndone() && (IsSmooth() ==> outcome.None?)
    {
      sessionId := 0;
      ghost var before := dropbox.server;
      var answer, _, _ := dropbox.RetryTransient(Start, 4, file);
      GrowingKeepsBehind(job.checkpoint, old(dropbox.origin), before, dropbox.server);
      if !answer.Done? {
        return Some(if answer.Died? then Crashed else Errored), 0;
      }
      sessionId := answer.session;
      var saved := job.Store(Some(Checkpoint(sessionId, 0, len, mtime)));
      outcome := if saved.Ok? then None else Some(Exit(saved));
    }

    /// The session is new and empty, and the checkpoint says so.
    ghost predicate IsFresh(file: LocalFile, session: nat) reads dropbox, job {
      && session < |dropbox.origin| && dropbox.origin[session] == file && HasExactly(dropbox.server, session, 0)
      && job.checkpoint == Some(Checkpoint(session, 0, file.len, file.mtime))
    }

    /// The checkpoint names the start of a session opened after the first `known`.
    predicate IsFreshlyNoted(file: LocalFile, known: nat) reads job {
      && job.checkpoint.Some? && job.checkpoint.value.session >= known
      && job.checkpoint.value == Checkpoint(job.checkpoint.value.session, 0, file.len, file.mtime)
    }

    /// Replaces an invalid session with a fresh one and rewinds the file.
    method RestartSession(handle: FileHandle) returns (outcome: Option<Outcome>, sessionId: nat)
      requires Valid() && handle.Valid() && handle.env == env && dropbox.Knows(handle.file)
      modifies dropbox, job, handle, env
      ensures Valid() && handle.Valid() && CommitsOnly(old(dropbox.server.commits), dropbox.server.commits, handle.file)
      ensures old(dropbox.origin) <= dropbox.origin
      ensures outcome != Some(Committed)
      ensures outcome.None? ==>
                IsFresh(handle.file, sessionId) && sessionId >= |old(dropbox.origin)| && handle.position == 0
      ensures job.checkpoint == old(job.checkpoint) || IsFreshlyNoted(handle.file, |old(dropbox.origin)|)
      ensures NothingUndone() && (IsSmooth() ==> outcome.None?)
    {
      ghost var file, before := handle.file, dropbox.server;
      sessionId := 0;
      var answer, _, _ := dropbox.RetryTransient(Start, 4, file);
      GrowingKeepsBehind(job.checkpoint, old(dropbox.origin), before, dropbox.server);
      if !answer.Done? {
        return Some(if answer.Died? then Crashed else Errored), 0;
      }
      var rewound := handle.Seek(0);
      if !rewound.Ok? {
        return Some(Exit(rewound)), 0;
      }
      sessionId := answer.session;
      var saved := job.Store(Some(Checkpoint(sessionId, 0, handle.file.len, handle.file.mtime)));
      outcome := if saved.Ok? then None else Some(Exit(saved));
    }

    /// Resumes from a checkpoint that names this very file, or starts a session.
    method OpenSession(handle: FileHandle) returns (outcome: Option<Outcome>, sessionId: nat, offset: nat)
      requires Valid() && handle.Valid() && handle.env == env && handle.position == 0 && dropbox.Knows(handle.file)
      modifies dropbox, job, handle, env
      ensures Valid() && handle.Valid() && CommitsOnly(old(dropbox.server.commits), dropbox.server.commits, handle.file)
      ensures old(dropbox.origin) <= dropbox.origin
      ensures outcome != Some(Committed)
      ensures outcome.None? ==> StandsAt(handle, sessionId, offset)
      // A checkpoint of this file is resumed without a request; otherwise a fresh session is recorded.
      ensures IsOf(old(job.checkpoint), handle.file) ==>
                && dropbox.server == old(dropbox.server) && job.checkpoint == old(job.checkpoint)
                && (outcome.None? ==>
                     sessionId == job.checkpoint.value.session && offset == job.checkpoint.value.offset)
      ensures !IsOf(old(job.checkpoint), handle.file) && outcome.None? ==>
                IsFresh(handle.file, sessionId) && sessionId >= |old(dropbox.origin)| && offset == 0
      ensures job.checkpoint == old(job.checkpoint) || IsFreshlyNoted(handle.file, |old(dropbox.origin)|)
      ensures NothingUndone() && (IsSmooth() ==> outcome.None?)
    {
      var len, mtime := handle.file.len, handle.file.mtime;
      sessionId, offset := 0, 0;
      var loaded := job.Load();
      if !loaded.Ok? {
        return Some(Exit(loaded)), 0, 0;
      }
      if IsOf(loaded.value, handle.file) {
        var ck := loaded.value.value;
        assert dropbox.origin[ck.session] == handle.file;
        var sought := handle.Seek(ck.offset);
        outcome := if sought.Ok? then None else Some(Exit(sought));
        return outcome, ck.session, ck.offset;
      }
      outcome, sessionId := StartSession(handle.file, len, mtime);
    }

    /// Sends one request and records what it did: a finish clears the checkpoint, an append moves it.
    method Send(op: Op, ghost file: LocalFile, len: nat, mtime: int) returns (sent: Sent, ghost answer: Answer)
      requires Valid() && dropbox.Knows(file) && len == file.len && mtime == file.mtime
      requires !op.Start? && GoodOp(op, file, dropbox.origin)
      requires op.Append? ==> ValidOffset(op.offset + |op.chunk|, file)
      modifies dropbox, job, env
      ensures Valid() && CommitsOnly(old(dropbox.server.commits), dropbox.server.commits, file)
      ensures old(dropbox.origin) <= dropbox.origin && dropbox.server.issued == old(dropbox.server.issued)
      // At every exit, a crash included: the checkpoint is as it was, or moved past an append the
      // server has, or cleared after a commit.
      ensures || job.checkpoint == old(job.checkpoint)
              || (&& op.Append? && job.checkpoint == Some(Checkpoint(op.session, op.offset + |op.chunk|, len, mtime))
                  && HasExactly(dropbox.server, op.session, op.offset + |op.chunk|))
              || (op.Finish? && job.checkpoint == None && |dropbox.server.commits| > |old(dropbox.server.commits)|)
      // Only an answer that calls the session invalid makes it lost.
      ensures sent.SessionLost? <==> answer.Failed? && answer.error.sessionInvalid
      ensures sent.SessionLost? ==> job.checkpoint == old(job.checkpoint)
      ensures sent.Appended? ==>
                && op.Append? && HasExactly(dropbox.server, op.session, op.offset + |op.chunk|)
                && job.checkpoint == Some(Checkpoint(op.session, op.offset + |op.chunk|, len, mtime))
      ensures sent == Stopped(Committed) ==>
                op.Finish? && |dropbox.server.commits| > |old(dropbox.server.commits)| && job.checkpoint == None
      // If nothing goes wrong, a request the server can accept does what it is for, and any other
      // shows that the session is lost.
      ensures NothingUndone()
      ensures IsSmooth() ==>
                sent == if !Accepts(old(dropbox.server), op) then SessionLost
                        else if op.Append? then Appended else Stopped(Committed)
    {
      ghost var before := dropbox.server;
      var reply, _, _ := dropbox.RetryTransient(op, 4, file);
      answer := reply;
      GrowingKeepsBehind(job.checkpoint, old(dropbox.origin), before, dropbox.server);
      match reply
      case Done(_) =>
        if op.Finish? {
          var cleared := job.Store(None);
          sent := Stopped(if cleared.Ok? then Committed else Exit(cleared));
          return;
        }
        var saved := job.Store(Some(Checkpoint(op.session, op.offset + |op.chunk|, len, mtime)));
        sent := if saved.Ok? then Appended else Stopped(Exit(saved));
      case Died =>
        sent := Stopped(Crashed);
      case Failed(e) =>
        sent := if e.sessionInvalid then SessionLost else Stopped(Errored);
    }

    /// An attempt stands at `offset` of its own session, with the file handle at the same place and
    /// the checkpoint saying so.
    ghost predicate StandsAt(handle: FileHandle, session: nat, offset: nat)
      reads dropbox, job, handle
    {
      && Valid() && handle.Valid() && handle.env == env && dropbox.Knows(handle.file)
      && session < |dropbox.origin| && dropbox.origin[session] == handle.file
      && ValidOffset(offset, handle.file) && handle.position == offset
      && job.checkpoint == Some(Checkpoint(session, offset, handle.file.len, handle.file.mtime))
    }

    /// Reads the next chunk, and says what is to be done with it.
    method ReadRequest(handle: FileHandle, buf: array<byte>, session: nat, at: nat) returns (r: Reply<Op>)
      requires StandsAt(handle, session, at) && buf.Length == CHUNK_SIZE
      modifies handle, buf, env
      ensures Valid() && handle.Valid()
      ensures r.Ok? ==>
                && !r.value.Start? && r.value.session == session && r.value.offset == at
                && GoodOp(r.value, handle.file, dropbox.origin)
      ensures r.Ok? && r.value.Append? ==>
                && at < at + |r.value.chunk| < handle.file.len && handle.position == at + |r.value.chunk|
                && ValidOffset(at + |r.value.chunk|, handle.file)
      ensures env.faults == old(env.faults) + if r.Ok? then 0 else 1
    {
      var filled := handle.FillBuffer(buf);
      if !filled.Ok? {
        return if filled.Err? then Err else Crash;
      }
      var chunk := buf[..filled.value];
      NextOpIsGood(session, at, chunk, handle.file, dropbox.origin);
      r := Ok(NextOp(session, at, chunk, handle.file.len));
    }

    /// One round of the loop: read a chunk, send it, and move on, restart or stop.
    method Round(handle: FileHandle, buf: array<byte>, session: nat, at: nat, restartedBefore: bool)
      returns (ended: Option<Outcome>, sessionId: nat, offset: nat, restarted: bool)
      requires StandsAt(handle, session, at) && buf.Length == CHUNK_SIZE
      modifies dropbox, job, handle, buf, env
      ensures Valid() && handle.Valid()
      ensures CommitsOnly(old(dropbox.server.commits), dropbox.server.commits, handle.file)
      ensures ended == Some(Committed) ==>
                |dropbox.server.commits| > |old(dropbox.server.commits)| && job.checkpoint == None
      ensures ended.None? ==> StandsAt(handle, sessionId, offset)
      ensures ended.None? ==>
                || (restarted && !restartedBefore)
                || (restarted == restartedBefore && at < offset <= handle.file.len)
      ensures NothingUndone()
      // If nothing goes wrong: a session the server has at this offset goes on or commits, and any
      // other is replaced, once, by a fresh one.
      ensures IsSmooth() && HasExactly(old(dropbox.server), session, at) ==>
                && (ended.None? || ended == Some(Committed)) && restarted == restartedBefore
                && dropbox.server.issued == old(dropbox.server.issued)
                && (ended.None? ==> HasExactly(dropbox.server, sessionId, offset))
      ensures IsSmooth() && !HasExactly(old(dropbox.server), session, at) && !restartedBefore ==>
                ended.None? && restarted && offset == 0 && HasExactly(dropbox.server, sessionId, 0)
    {
      sessionId, offset, restarted := session, at, restartedBefore;
      var read := ReadRequest(handle, buf, session, at);
      if !read.Ok? {
        return Some(Exit(read)), sessionId, offset, restarted;
      }
      var op := read.value;
      var sent, _ := Send(op, handle.file, handle.file.len, handle.file.mtime);
      match sent
      case Stopped(end) =>
        ended := Some(end);
      case Appended =>
        ended, offset := None, offset + |op.chunk|;
      case SessionLost =>
        if restarted {
          return Some(Errored), sessionId, offset, restarted;
        }
        restarted := true;
        ended, sessionId := RestartSession(handle);
        offset := 0;
    }

    /// The checkpoint is of this file, and its session is on Dropbox just as far.
    predicate CanResume(file: LocalFile) reads dropbox, job {
      && IsOf(job.checkpoint, file)
      && HasExactly(dropbox.server, job.checkpoint.value.session, job.checkpoint.value.offset)
    }

    /// One attempt at the upload. Whatever the network does and wherever the process dies, it
    /// commits nothing but the snapshot of the file it was given, and it ends: a restart happens
    /// once, and every other round moves the offset towards the captured length. If nothing goes
    /// wrong it commits, whatever checkpoint earlier attempts left.
    method UploadViaSession(handle: FileHandle) returns (outcome: Outcome)
      requires Valid() && handle.Valid() && handle.env == env && handle.position == 0 && dropbox.Knows(handle.file)
      modifies dropbox, job, handle, env
      ensures Valid() && CommitsOnly(old(dropbox.server.commits), dropbox.server.commits, handle.file)
      ensures outcome.Committed? ==> |dropbox.server.commits| > |old(dropbox.server.commits)| && job.checkpoint == None
      ensures NothingUndone() && (IsSmooth() ==> outcome.Committed?)
      // And it opens no new session if the old one can go on.
      ensures IsSmooth() && old(CanResume(handle.file)) ==>
                dropbox.server.issued == old(dropbox.server.issued)
    {
      ghost var resumable := CanResume(handle.file);
      var ended, sessionId, offset := OpenSession(handle);
      var buf := new byte[CHUNK_SIZE];
      var restarted := false;
      while ended.None?
        invariant 0 <= sessionId && 0 <= offset && Valid()
        invariant ended.None? ==> StandsAt(handle, sessionId, offset)
        invariant CommitsOnly(old(dropbox.server.commits), dropbox.server.commits, handle.file)
        invariant ended == Some(Committed) ==>
                    |dropbox.server.commits| > |old(dropbox.server.commits)| && job.checkpoint == None
        invariant NothingUndone()
        invariant IsSmooth() ==> ended.None? || ended == Some(Committed)
        invariant IsSmooth() && ended.None? && (restarted || resumable) ==>
                    HasExactly(dropbox.server, sessionId, offset)
        invariant IsSmooth() && resumable ==>
                    dropbox.server.issued == old(dropbox.server.issued)
        invariant fresh(buf)
        decreases ended.None?, if restarted then 0 else 1, handle.file.len - offset
      {
        ended, sessionId, offset, restarted := Round(handle, buf, sessionId, offset, restarted);
      }
      outcome := ended.value;
    }

    /// Any number of attempts, each on the file as it then is, after errors and crashes alike.
    method RunAttempts(files: seq<LocalFile>)
      requires Valid() && forall file :: file in files ==> dropbox.Knows(file)
      modifies dropbox, job, env
      ensures Valid() && CommitsAmong(old(dropbox.server.commits), dropbox.server.commits, files)
      // If nothing goes wrong, every attempt commits.
      ensures NothingUndone()
      ensures IsSmooth() ==> |dropbox.server.commits| >= |old(dropbox.server.commits)| + |files|
    {
      for k := 0 to |files|
        invariant Valid() && CommitsAmong(old(dropbox.server.commits), dropbox.server.commits, files)
        invariant NothingUndone()
        invariant IsSmooth() ==> |dropbox.server.commits| >= |old(dropbox.server.commits)| + k
      {
        ghost var before := dropbox.server.commits;
        assert files[k] in files;
        var handle := new FileHandle(files[k], env);
        var _ := UploadViaSession(handle);
        CommitsAccumulate(old(dropbox.server.commits), before, dropbox.server.commits, files[k], files);
      }
    }

    /// A file that never changes is the only thing ever committed, over any run.
    method RunOnUnchangedFile(file: LocalFile, attempts: nat)
      requires Valid() && dropbox.Knows(file) && |file.data| == file.len
      modifies dropbox, job, env
      ensures Valid() && old(dropbox.server.commits) <= dropbox.server.commits
      ensures forall i :: |old(dropbox.server.commits)| <= i < |dropbox.server.commits| ==>
        dropbox.server.commits[i] == file.data
      ensures NothingUndone()
      ensures IsSmooth() ==> |dropbox.server.commits| >= |old(dropbox.server.commits)| + attempts
    {
      var files := seq(attempts, _ => file);
      assert forall other :: other in files ==> other == file;
      RunAttempts(files);
      SnapshotOfUnchangedFile(file);
    }
  }
}
