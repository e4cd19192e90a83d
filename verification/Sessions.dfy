// What a host gets that sends whole requests one after the other to a server whose
// disk, heap and line do not fail: the listener is a store of files by what their paths
// name.
module Sessions {
  import opened Options
  import opened FileNames
  import opened Deploy
  import Paths

  datatype Request = Put(path: Bytes, data: Bytes) | Get(path: Bytes) | Delete(path: Bytes) | Ping

  function Command(r: Request): Byte {
    match r
    case Put(_, _) => CMD_PUT
    case Get(_) => CMD_GET
    case Delete(_) => CMD_DELETE
    case Ping => CMD_PING
  }

  /** The request fits in a frame, and names a path if it is to. */
  ghost predicate WellMade(r: Request) {
    match r
    case Put(path, data) => NamesPath(path) && 2 + |path| + |data| <= MAX_PAYLOAD_BYTES
    case Get(path) => NamesPath(path)
    case Delete(path) => NamesPath(path)
    case Ping => true
  }

  ghost function Payload(r: Request): (b: Bytes)
    requires WellMade(r)
    ensures |b| <= MAX_PAYLOAD_BYTES
  {
    match r
    case Put(path, data) => Le16(|path|) + path + data
    case Get(path) => Le16(|path|) + path
    case Delete(path) => Le16(|path|) + path
    case Ping => []
  }

  /** The frame that carries a command and a payload. */
  function Frame(step: Step, cmd: Byte, payload: Bytes): Bytes
    requires |payload| <= MAX_PAYLOAD_BYTES
  {
    var body := [cmd] + Le32(|payload|) + payload;
    REQ_MAGIC + body + Le16(Crc16(step, CRC_START, body))
  }

  ghost predicate AllWellMade(rs: seq<Request>) {
    forall i | 0 <= i < |rs| :: WellMade(rs[i])
  }

  ghost function Frames(step: Step, rs: seq<Request>): Bytes
    requires AllWellMade(rs)
  {
    if rs == [] then [] else Frame(step, Command(rs[0]), Payload(rs[0])) + Frames(step, rs[1..])
  }

  // ---- The store ----

  /** What paths name. */
  type Naming = Bytes -> Place

  ghost function AnswerTo(named: Naming, r: Request, files: Files): Outcome
    requires WellMade(r)
  {
    match r
    case Put(_, data) => Answered(ST_OK, Le32(|data|))
    case Get(path) => Fetched(named(path), files)
    case Delete(_) => Answered(ST_OK, [])
    case Ping => Answered(ST_OK, VERSION)
  }

  ghost function Kept(files: Files, path: Place): Files {
    map q | q in files && !Under(path, q) :: files[q]
  }

  ghost function After(named: Naming, r: Request, files: Files): Files {
    match r
    case Put(path, data) => files[named(path) := data]
    case Get(_) => files
    case Delete(path) => Kept(files, named(path))
    case Ping => files
  }

  ghost function Answers(named: Naming, rs: seq<Request>, files: Files): seq<Outcome>
    requires AllWellMade(rs)
  {
    if rs == [] then [] else [AnswerTo(named, rs[0], files)] + Answers(named, rs[1..], After(named, rs[0], files))
  }

  ghost function FilesAfter(named: Naming, rs: seq<Request>, files: Files): Files {
    if rs == [] then files else FilesAfter(named, rs[1..], After(named, rs[0], files))
  }

  // ---- One request ----

  /** A frame for the command and the payload lies at `at`. */
  ghost predicate Lies(s: Server, at: nat, cmd: Byte, payload: Bytes) {
    && at + 11 + |payload| <= |s.input| && |payload| <= MAX_PAYLOAD_BYTES
    && s.input[at..at + 11 + |payload|] == Frame(s.step, cmd, payload)
  }

  /** The parts of a frame. */
  lemma {:induction false} FrameParts(s: Server, at: nat, cmd: Byte, payload: Bytes)
    requires Lies(s, at, cmd, payload)
    ensures var start, n := at + 4, |payload|;
            && s.input[at..start] == REQ_MAGIC && s.input[start] == cmd && s.LenAt(start) == n
            && s.input[start + 5..start + 5 + n] == payload
            && s.CrcRight(s.input[start..start + 5], start + 5, n)
  {
    var n := |payload|;
    var body := [cmd] + Le32(n) + payload;
    var crc := Crc16(s.step, CRC_START, body);
    var f := Frame(s.step, cmd, payload);
    Le32RoundTrip(n);
    Le16RoundTrip(crc);
    FramePieces(f, body, crc);
    Inside(s.input, at, at + 11 + n, 0, 4);
    Inside(s.input, at, at + 11 + n, 4, 9 + n);
    Inside(s.input, at, at + 11 + n, 9 + n, 11 + n);
    BodyPieces(s, at + 4, cmd, payload);
  }

  lemma {:induction false} BodyPieces(s: Server, start: nat, cmd: Byte, payload: Bytes)
    requires |payload| <= MAX_PAYLOAD_BYTES && start + 5 + |payload| <= |s.input|
    requires s.input[start..start + 5 + |payload|] == [cmd] + Le32(|payload|) + payload
    ensures var n := |payload|;
            && s.input[start] == cmd && s.input[start + 1..start + 5] == Le32(n)
            && s.input[start + 5..start + 5 + n] == payload
            && s.input[start..start + 5] + s.input[start + 5..start + 5 + n] == [cmd] + Le32(n) + payload
  {
    var n, body := |payload|, [cmd] + Le32(|payload|) + payload;
    Inside(s.input, start, start + 5 + n, 0, 1);
    Inside(s.input, start, start + 5 + n, 1, 5);
    Inside(s.input, start, start + 5 + n, 5, 5 + n);
    Slices(s.input, start, start + 5, start + 5 + n);
    assert body[1..5] == Le32(n) && body[5..5 + n] == payload && body[0] == cmd;
  }

  lemma {:induction false} FramePieces(f: Bytes, body: Bytes, crc: Crc)
    requires f == REQ_MAGIC + body + Le16(crc)
    ensures |f| == |body| + 6 && f[0..4] == REQ_MAGIC && f[4..4 + |body|] == body
            && f[4 + |body|..6 + |body|] == Le16(crc)
  {
  }

  /** The listener finds the frame and all of it. */
  lemma {:induction false} FrameIsNext(s: Server, at: nat, cmd: Byte, payload: Bytes, p: nat)
    requires Lies(s, at, cmd, payload)
    ensures s.FirstMagic(at, p) <==> p == at + 4
    ensures !s.NoMagic(at) && s.Complete(at + 4)
  {
    FrameParts(s, at, cmd, payload);
    assert s.MagicEndsAt(at, at + 4);
  }

  /** The payload that is a path only. */
  lemma {:induction false} PathPayload(path: Bytes)
    requires NamesPath(path)
    ensures var body := Le16(|path|) + path;
            PathOnly(body) && body[2..2 + FromLe16(body[..2])] == path
  {
    Le16RoundTrip(|path|);
    var body := Le16(|path|) + path;
    assert body[..2] == Le16(|path|) && body[2..2 + |path|] == path;
  }

  /** The answer to a whole request, and the files after it, are those of the store. */
  lemma {:induction false} OneRequest(s: Server, at: nat, r: Request, out: Outcome, before: Files, after: Files)
    requires s.faultless && s.pauses == {} && WellMade(r) && Lies(s, at, Command(r), Payload(r))
    requires s.FrameDone(at + 4, out, before, after) && out.Answered?
    ensures out == AnswerTo(s.named, r, before) && after == After(s.named, r, before)
  {
    FrameParts(s, at, Command(r), Payload(r));
    match r {
      case Put(path, data) => OnePut(s, at, path, data, out, before, after);
      case Get(path) => OneGet(s, at, path, out, before, after);
      case Delete(path) => OneDelete(s, at, path, out, before, after);
      case Ping => OneServed(s, at, CMD_PING, [], out, before, after);
    }
  }

  lemma {:induction false} OneServed(s: Server, at: nat, cmd: Byte, payload: Bytes, out: Outcome, before: Files,
                                     after: Files)
    requires s.faultless && cmd != CMD_PUT && Lies(s, at, cmd, payload)
    requires s.FrameDone(at + 4, out, before, after) && out.Answered?
    ensures s.ServedIf(true, cmd, payload, out, before, after)
  {
    FrameParts(s, at, cmd, payload);
    assert s.FrameDoneIf(true, at + 4, out, before, after);
    assert s.Served(cmd, payload, out, before, after);
  }

  lemma {:induction false} OneGet(s: Server, at: nat, path: Bytes, out: Outcome, before: Files, after: Files)
    requires s.faultless && NamesPath(path) && Lies(s, at, CMD_GET, Le16(|path|) + path)
    requires s.FrameDone(at + 4, out, before, after) && out.Answered?
    ensures out == Fetched(s.named(path), before) && after == before
  {
    PathPayload(path);
    OneServed(s, at, CMD_GET, Le16(|path|) + path, out, before, after);
  }

  lemma {:induction false} OneDelete(s: Server, at: nat, path: Bytes, out: Outcome, before: Files, after: Files)
    requires s.faultless && NamesPath(path) && Lies(s, at, CMD_DELETE, Le16(|path|) + path)
    requires s.FrameDone(at + 4, out, before, after) && out.Answered?
    ensures out == Answered(ST_OK, []) && after == Kept(before, s.named(path))
  {
    PathPayload(path);
    OneServed(s, at, CMD_DELETE, Le16(|path|) + path, out, before, after);
    forall q ensures q in after <==> q in Kept(before, s.named(path)) {
      if q in before && q !in after { assert Under(s.named(path), q); }
    }
  }

  lemma {:induction false} PutPath(s: Server, start: nat, path: Bytes, data: Bytes)
    requires NamesPath(path)
    requires start + 2 + |path| + |data| <= |s.input|
    requires s.input[start..start + 2 + |path| + |data|] == Le16(|path|) + path + data
    ensures s.PathAt(start, 2 + |path| + |data|) && s.PathLenAt(start) == |path|
    ensures s.NamedAt(start, 2 + |path| + |data|) == s.named(path)
    ensures s.input[start + 2 + |path|..start + 2 + |path| + |data|] == data
  {
    var n := 2 + |path| + |data|;
    var body := Le16(|path|) + path + data;
    Le16RoundTrip(|path|);
    Inside(s.input, start, start + n, 0, 2);
    Inside(s.input, start, start + n, 2, 2 + |path|);
    Inside(s.input, start, start + n, 2 + |path|, n);
    assert body[0..2] == Le16(|path|) && body[2..2 + |path|] == path && body[2 + |path|..n] == data;
  }

  lemma {:induction false} OnePut(s: Server, at: nat, path: Bytes, data: Bytes, out: Outcome, before: Files,
                                  after: Files)
    requires s.faultless && s.pauses == {} && NamesPath(path) && 2 + |path| + |data| <= MAX_PAYLOAD_BYTES
    requires Lies(s, at, CMD_PUT, Le16(|path|) + path + data)
    requires s.FrameDone(at + 4, out, before, after) && out.Answered?
    ensures out == Answered(ST_OK, Le32(|data|)) && after == before[s.named(path) := data]
  {
    var start, n := at + 4, 2 + |path| + |data|;
    var payload := Le16(|path|) + path + data;
    FrameParts(s, at, CMD_PUT, payload);
    PutPath(s, start + 5, path, data);
    s.PutDone(start, out, before, after);
    assert s.DataInTime(start + 5, n, |data|);
    s.PutVerdict(s.input[start..start + 5], start + 5, n, s.named(path), |data|, out, before, after);
    s.SameFiles(before, after, before[s.named(path) := data], s.named(path));
  }

  // ---- Whole sessions ----

  lemma {:induction false} FirstLies(s: Server, from: nat, rs: seq<Request>)
    requires AllWellMade(rs) && rs != [] && from <= |s.input| && s.input[from..] == Frames(s.step, rs)
    ensures WellMade(rs[0]) && AllWellMade(rs[1..]) && Lies(s, from, Command(rs[0]), Payload(rs[0]))
    ensures from + 11 + |Payload(rs[0])| <= |s.input|
    ensures s.input[from + 11 + |Payload(rs[0])|..] == Frames(s.step, rs[1..])
  {
    var f, rest := Frame(s.step, Command(rs[0]), Payload(rs[0])), Frames(s.step, rs[1..]);
    var n := 11 + |Payload(rs[0])|;
    assert |f| == n && s.input[from..] == f + rest;
    assert s.input[from..][..n] == s.input[from..from + n] && s.input[from..][n..] == s.input[from + n..];
  }

  /** The first answer of a run is that to the first request, and it stops behind that. */
  lemma {:induction false} FirstAnswer(s: Server, from: nat, before: Files, r: Request, run: seq<Answer>)
    requires s.faultless && s.pauses == {} && WellMade(r) && Lies(s, from, Command(r), Payload(r))
    requires s.IsRun(from, before, run) && run != []
    ensures run[0].out == AnswerTo(s.named, r, before) && run[0].files == After(s.named, r, before)
    ensures run[0].stop == from + 11 + |Payload(r)|
  {
    var a := run[0];
    assert s.FollowsAt(from, before, run, 0);
    assert s.FollowsIf(true, from, before, a);
    FrameIsNext(s, from, Command(r), Payload(r), a.start);
    FrameParts(s, from, Command(r), Payload(r));
    OneRequest(s, from, r, a.out, before, a.files);
  }

  /** A run that answers all there is to answer, and the files after it. */
  ghost predicate WholeRun(s: Server, from: nat, before: Files, run: seq<Answer>, after: Files) {
    s.IsRun(from, before, run) && s.NoMore(StopBefore(from, run, |run|), FilesBefore(before, run, |run|), after)
  }

  lemma {:induction false} RestOfRun(s: Server, from: nat, before: Files, run: seq<Answer>, after: Files)
    requires WholeRun(s, from, before, run, after) && run != []
    ensures WholeRun(s, run[0].stop, run[0].files, run[1..], after)
  {
    var rest, stop, files := run[1..], run[0].stop, run[0].files;
    forall i | 0 <= i < |rest| ensures s.FollowsAt(stop, files, rest, i) {
      assert s.FollowsAt(from, before, run, i + 1);
    }
    assert StopBefore(stop, rest, |rest|) == StopBefore(from, run, |run|);
    assert FilesBefore(files, rest, |rest|) == FilesBefore(before, run, |run|);
  }

  /** The listener does not stop before a whole request. */
  lemma {:induction false} MoreToCome(s: Server, from: nat, cmd: Byte, payload: Bytes, before: Files, after: Files)
    requires Lies(s, from, cmd, payload)
    ensures !s.NoMore(from, before, after)
  {
    FrameIsNext(s, from, cmd, payload, from + 4);
    forall start ensures !(s.FirstMagic(from, start) && !s.Complete(start)) {
      FrameIsNext(s, from, cmd, payload, start);
    }
  }

  function Outs(run: seq<Answer>): seq<Outcome> {
    seq(|run|, i requires 0 <= i < |run| => run[i].out)
  }

  lemma {:induction false} FirstOut(run: seq<Answer>)
    requires run != []
    ensures Outs(run) == [run[0].out] + Outs(run[1..])
  {
  }

  lemma {:induction false} NothingLeft(s: Server, before: Files, run: seq<Answer>, after: Files)
    requires WholeRun(s, |s.input|, before, run, after)
    ensures run == [] && after == before
  {
    if run != [] {
      assert s.FollowsAt(|s.input|, before, run, 0);
      StartsInside(s, |s.input|, before, run[0]);
    }
  }

  lemma StartsInside(s: Server, from: nat, before: Files, a: Answer)
    requires s.Follows(from, before, a)
    ensures from + 4 <= a.start <= |s.input|
  {
    assert s.FollowsIf(true, from, before, a);
  }

  /** The first request of some gets its answer, and the run goes on behind it with the others. */
  lemma {:induction false} FirstOfSession(s: Server, from: nat, before: Files, rs: seq<Request>, run: seq<Answer>,
                                          after: Files)
    requires s.faultless && s.pauses == {} && AllWellMade(rs) && rs != []
    requires from <= |s.input| && s.input[from..] == Frames(s.step, rs)
    requires WholeRun(s, from, before, run, after)
    ensures run != [] && WellMade(rs[0]) && AllWellMade(rs[1..])
    ensures run[0].out == AnswerTo(s.named, rs[0], before) && run[0].files == After(s.named, rs[0], before)
    ensures run[0].stop <= |s.input| && s.input[run[0].stop..] == Frames(s.step, rs[1..])
  {
    FirstLies(s, from, rs);
    if run == [] {
      MoreToCome(s, from, Command(rs[0]), Payload(rs[0]), before, after);
    } else {
      FirstAnswer(s, from, before, rs[0], run);
    }
  }

  /** A run over requests gives each of them its one answer, and leaves the files of the store. */
  lemma {:induction false} RunIsSession(s: Server, from: nat, before: Files, rs: seq<Request>, run: seq<Answer>,
                                        after: Files)
    requires s.faultless && s.pauses == {} && AllWellMade(rs)
    requires from <= |s.input| && s.input[from..] == Frames(s.step, rs)
    requires WholeRun(s, from, before, run, after)
    ensures Outs(run) == Answers(s.named, rs, before) && after == FilesAfter(s.named, rs, before)
    decreases |rs|
  {
    if rs == [] {
      assert from == |s.input|;
      NothingLeft(s, before, run, after);
    } else {
      FirstOfSession(s, from, before, rs, run, after);
      RestOfRun(s, from, before, run, after);
      RunIsSession(s, run[0].stop, run[0].files, rs[1..], run[1..], after);
      FirstOut(run);
    }
  }

  lemma {:induction false} ReadFromTheStart(step: Step, log: seq<Outcome>, said: Bytes, output: Bytes)
    requires AllAnswers(log) && output == said + Responses(step, log)
    ensures said == [] ==> HostReads(step, output) == log
  {
    if said == [] {
      NothingBefore(said, Responses(step, log), output);
      HostReadsAll(step, log);
    }
  }

  lemma NothingBefore(said: Bytes, told: Bytes, output: Bytes)
    requires output == said + told && said == []
    ensures output == told
  {
  }

  /**
   * deploy_listener_task over whole requests: a host that reads what was written reads the
   * answers of the store, one to each request, and the files are those of the store.
   */
  method Serve(s: Server, ghost rs: seq<Request>) returns (log: seq<Outcome>)
    requires s.Valid() && s.faultless && s.pauses == {}
    requires AllWellMade(rs) && s.input[s.pos..] == Frames(s.step, rs)
    modifies s`pos, s`files, s`output
    ensures log == Answers(s.named, rs, old(s.files)) && s.files == FilesAfter(s.named, rs, old(s.files))
    ensures AllAnswers(log) && s.output == old(s.output) + Responses(s.step, log)
    ensures old(s.output) == [] ==> HostReads(s.step, s.output) == log
  {
    ghost var from, before, said := s.pos, s.files, s.output;
    ghost var run;
    log, run := s.Listen();
    RunIsSession(s, from, before, rs, run, s.files);
    assert log == Outs(run);
    ReadFromTheStart(s.step, log, said, s.output);
  }
}
