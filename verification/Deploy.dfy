// The deploy protocol: finding a frame in the bytes of a serial line, handling it,
// and answering it.
//
// A line is the bytes the sender will ever send. Reading past them never returns; a
// read with a time limit gives up at the end of the bytes or at a pause in them.
// Files are byte sequences by what a path names: a device and names, as the file system
// takes a POSIX path apart. What memory, the file system and the directory do beyond
// that is left open.
module Deploy {
  import opened Options
  import opened FileNames
  import Paths

  type Byte = b: int | 0 <= b < 256 witness 0

  type Bytes = seq<Byte>

  const REQ_MAGIC: Bytes := [0xDE, 0xAD, 0xBE, 0xEF]
  const RESP_MAGIC: Bytes := [0xDE, 0xAD, 0xC0, 0xDE]

  const MAX_PAYLOAD_BYTES: nat := 2 * 1024 * 1024
  const MAX_PATH_BYTES: nat := 256
  const LIST_BUFFER_BYTES: nat := 16 * 1024
  const PUT_CHUNK_BYTES: nat := 4096

  const CMD_PUT: Byte := 0x01
  const CMD_GET: Byte := 0x02
  const CMD_LIST: Byte := 0x03
  const CMD_DELETE: Byte := 0x04
  const CMD_PING: Byte := 0x07

  const ST_OK: Byte := 0x00
  const ST_ERR_BAD_FRAME: Byte := 0x01
  const ST_ERR_OOM: Byte := 0x02
  const ST_ERR_BAD_PATH: Byte := 0x03
  const ST_ERR_FOPEN: Byte := 0x04
  const ST_ERR_WRITE: Byte := 0x05
  const ST_ERR_UNKNOWN_CMD: Byte := 0x06
  const ST_ERR_TOO_BIG: Byte := 0x07
  const ST_ERR_READ: Byte := 0x08

  // ---- Numbers and checksums on the wire ----

  function Le16(n: nat): Bytes
    requires n < 0x1_0000
  {
    [n % 256, n / 256]
  }

  function Le32(n: nat): Bytes
    requires n < 0x1_0000_0000
  {
    [n % 256, n / 256 % 256, n / 65536 % 256, n / 16777216]
  }

  function FromLe16(b: Bytes): (n: nat)
    requires |b| == 2
    ensures n < 0x1_0000
  {
    var lo: int, hi: int := b[0], b[1];
    lo + 256 * hi
  }

  function FromLe32(b: Bytes): (n: nat)
    requires |b| == 4
    ensures n < 0x1_0000_0000
  {
    var b0: int, b1: int, b2: int, b3: int := b[0], b[1], b[2], b[3];
    b0 + 256 * b1 + 65536 * b2 + 16777216 * b3
  }

  lemma Le32RoundTrip(n: nat)
    requires n < 0x1_0000_0000
    ensures |Le32(n)| == 4 && FromLe32(Le32(n)) == n
  {
    var a, b, c := n / 256, n / 65536, n / 16777216;
    assert n == 256 * a + n % 256;
    assert a == 256 * b + a % 256 && b == 256 * c + b % 256;
  }

  lemma Le16RoundTrip(n: nat)
    requires n < 0x1_0000
    ensures |Le16(n)| == 2 && FromLe16(Le16(n)) == n
  {
  }

  /** The lowest byte is first. */
  lemma LittleEndian(n: nat)
    ensures n < 0x1_0000 ==> var b := Le16(n); |b| == 2 && n == b[0] as int + 256 * b[1] as int
    ensures n < 0x1_0000_0000 ==>
              var b := Le32(n);
              |b| == 4 && n == b[0] as int + 256 * b[1] as int + 65536 * b[2] as int + 16777216 * b[3] as int
  {
    if n < 0x1_0000_0000 {
      Le32RoundTrip(n);
    }
  }

  type Crc = c: int | 0 <= c < 0x1_0000 witness 0

  const CRC_START: Crc := 0xFFFF

  /** What the checksum routine does with one byte. It is any function of the checksum so far and the byte. */
  type Step = (Crc, Byte) -> Crc

  /** esp_rom_crc16_le: the checksum `crc` carried on over `data`. */
  function Crc16(step: Step, crc: Crc, data: Bytes): Crc
    decreases |data|
  {
    if data == [] then crc else Crc16(step, step(crc, data[0]), data[1..])
  }

  /** A checksum taken piece by piece is the checksum of the whole. */
  lemma {:induction false} CrcInPieces(step: Step, crc: Crc, a: Bytes, b: Bytes)
    ensures Crc16(step, Crc16(step, crc, a), b) == Crc16(step, crc, a + b)
    decreases |a|
  {
    if a == [] {
      assert a + b == b;
    } else {
      assert (a + b)[0] == a[0] && (a + b)[1..] == a[1..] + b;
      CrcInPieces(step, step(crc, a[0]), a[1..], b);
    }
  }

  // ---- Responses ----

  /** What a request comes to: an answer, or a wait for bytes that never come. */
  datatype Outcome = Waiting | Answered(status: Byte, payload: Bytes)

  /** The bytes of a response frame. */
  function Response(step: Step, status: Byte, payload: Bytes): Bytes
    requires |payload| < 0x1_0000_0000
  {
    var body := [status] + Le32(|payload|) + payload;
    RESP_MAGIC + body + Le16(Crc16(step, CRC_START, body))
  }

  /** What a host makes of bytes: status and payload of the response frame at their start, if it is whole and right. */
  function Received(step: Step, b: Bytes): Outcome {
    if |b| < 11 || b[..4] != RESP_MAGIC then Waiting else
    var n := FromLe32(b[5..9]);
    if |b| < 11 + n then Waiting
    else if FromLe16(b[9 + n..11 + n]) != Crc16(step, CRC_START, b[4..9 + n]) then Waiting
    else Answered(b[4], b[9..9 + n])
  }

  /** What is where in a response, and what the checksum at its end covers. */
  lemma {:induction false} ResponseLayout(step: Step, status: Byte, payload: Bytes)
    requires |payload| < 0x1_0000_0000
    ensures var r, n := Response(step, status, payload), |payload|;
            && |r| == 11 + n && r[..4] == [0xDE, 0xAD, 0xC0, 0xDE] && r[4] == status
            && r[5] as int + 256 * r[6] as int + 65536 * r[7] as int + 16777216 * r[8] as int == n
            && r[9..9 + n] == payload
            && r[9 + n] as int + 256 * r[10 + n] as int == Crc16(step, 0xFFFF, r[4..9 + n])
  {
    var r, n := Response(step, status, payload), |payload|;
    var body := [status] + Le32(n) + payload;
    var crc := Crc16(step, CRC_START, body);
    Le32RoundTrip(n);
    Le16RoundTrip(crc);
    assert r == RESP_MAGIC + body + Le16(crc);
    assert r[4..9 + n] == body && body[1..5] == Le32(n) && body[5..5 + n] == payload;
    assert r[5..9] == Le32(n) && r[9..9 + n] == payload && r[9 + n..11 + n] == Le16(crc);
  }

  /** A host that reads a response, whatever follows it, gets the status and the payload that were sent. */
  lemma {:induction false} ResponseRoundTrip(step: Step, status: Byte, payload: Bytes, rest: Bytes)
    requires |payload| < 0x1_0000_0000
    ensures Received(step, Response(step, status, payload) + rest) == Answered(status, payload)
  {
    var body := [status] + Le32(|payload|) + payload;
    var crc := Crc16(step, CRC_START, body);
    var b := Response(step, status, payload) + rest;
    Le32RoundTrip(|payload|);
    Le16RoundTrip(crc);
    assert b == RESP_MAGIC + body + Le16(crc) + rest;
    assert b[..4] == RESP_MAGIC && b[4] == status;
    assert b[5..9] == Le32(|payload|);
    var n := |payload|;
    assert b[9..9 + n] == payload && b[4..9 + n] == body && b[9 + n..11 + n] == Le16(crc);
  }

  // ---- Requests ----

  /** The C string at the start of bytes: up to the first NUL. */
  function CString(b: Bytes): (s: string)
    ensures |s| <= |b|
    decreases |b|
  {
    if b == [] || b[0] == 0 then "" else [b[0] as char] + CString(b[1..])
  }

  const PATH_BUFFER: nat := MAX_PATH_BYTES + 32

  /** A path that a request may name, and the POSIX path it stands for. */
  ghost predicate NamesPath(b: Bytes) {
    0 < |b| < MAX_PATH_BYTES && forall open {:trigger NamesPathIf(open, b)} :: NamesPathIf(open, b)
  }

  ghost predicate NamesPathIf(open: bool, b: Bytes) {
    open ==> Paths.Converts(CString(b), PATH_BUFFER)
  }

  ghost function PosixPath(b: Bytes): (posix: string)
    requires NamesPath(b)
    ensures posix != ""
  {
    assert NamesPathIf(true, b);
    Paths.Posix(CString(b)).value
  }

  /** The file or directory that a POSIX path names on a disk that takes names with one `fold` for the same. */
  function FoldedPlace(fold: string -> string, posix: string): Place
    requires posix != ""
  {
    Place(PlaceOf(posix).device, Folded(fold, PlaceOf(posix).names))
  }

  function Folded(fold: string -> string, names: seq<string>): seq<string> {
    if names == [] then [] else [fold(names[0])] + Folded(fold, names[1..])
  }

  /** The payload of GET, LIST and DELETE: the length of a path, and the path. */
  ghost predicate PathOnly(payload: Bytes) {
    && |payload| >= 2 && 2 + FromLe16(payload[..2]) <= |payload|
    && NamesPath(payload[2..2 + FromLe16(payload[..2])])
  }

  /** What is wrong with a payload that is to be a path. */
  ghost function PathError(payload: Bytes): Byte {
    if |payload| < 2 then ST_ERR_BAD_FRAME
    else if FromLe16(payload[..2]) == 0 || FromLe16(payload[..2]) >= MAX_PATH_BYTES then ST_ERR_BAD_PATH
    else if FromLe16(payload[..2]) + 2 > |payload| then ST_ERR_BAD_FRAME
    else ST_ERR_BAD_PATH
  }

  /** BAD_FRAME exactly when the length of the path is missing, or says more than there is. */
  lemma PathErrorExactly(payload: Bytes)
    ensures PathError(payload) == ST_ERR_BAD_FRAME <==>
              |payload| < 2 || (var n := payload[0] as int + 256 * payload[1] as int; 0 < n < 256 && |payload| < 2 + n)
    ensures PathError(payload) in {ST_ERR_BAD_FRAME, ST_ERR_BAD_PATH}
  {
    if |payload| >= 2 {
      assert payload[..2][0] == payload[0] && payload[..2][1] == payload[1];
    }
  }

  /** The answer to GET when nothing fails. */
  function Fetched(path: Place, files: Files): (out: Outcome)
    ensures out.Answered? && (out.status == ST_OK <==> path in files && |files[path]| <= MAX_PAYLOAD_BYTES)
    ensures out.payload == if out.status == ST_OK then files[path] else []
    ensures path !in files <==> out.status == ST_ERR_FOPEN
  {
    if path !in files then Answered(ST_ERR_FOPEN, [])
    else if |files[path]| > MAX_PAYLOAD_BYTES then Answered(ST_ERR_TOO_BIG, [])
    else Answered(ST_OK, files[path])
  }

  /** The lines that fit, one after the other, up to the first that does not. */
  function Listing(lines: seq<Bytes>, room: int): Bytes {
    if lines == [] || |lines[0]| > room then [] else lines[0] + Listing(lines[1..], room - |lines[0]|)
  }

  function Concat(lines: seq<Bytes>): Bytes {
    if lines == [] then [] else lines[0] + Concat(lines[1..])
  }

  /** A listing has as many lines as fit, counted from the first, and all of each. */
  lemma {:induction false} ListingIsPrefix(lines: seq<Bytes>, room: nat)
    ensures |Listing(lines, room)| <= room
    ensures exists k: nat :: k <= |lines| && Listing(lines, room) == Concat(lines[..k])
                             && (k < |lines| ==> |Concat(lines[..k + 1])| > room)
  {
    if lines == [] {
      assert Listing(lines, room) == Concat(lines[..0]);
    } else if |lines[0]| > room {
      assert lines[..1][1..] == [] && Listing(lines, room) == Concat(lines[..0]);
      assert Concat(lines[..1]) == lines[0] + Concat([]);
    } else {
      var first, rest := lines[0], lines[1..];
      ListingIsPrefix(rest, room - |first|);
      var k: nat :| k <= |rest| && Listing(rest, room - |first|) == Concat(rest[..k])
                    && (k < |rest| ==> |Concat(rest[..k + 1])| > room - |first|);
      assert lines[..k + 1][1..] == rest[..k];
      assert k < |rest| ==> lines[..k + 2][1..] == rest[..k + 1];
      assert Listing(lines, room) == Concat(lines[..k + 1]);
    }
  }

  /** A place is another, or is below it. */
  predicate Under(path: Place, q: Place) {
    q.device == path.device && path.names <= q.names
  }

  type Files = map<Place, Bytes>

  /** Files other than `path` are the same. */
  ghost predicate SameBut(before: Files, after: Files, path: Place) {
    before - {path} == after - {path}
  }

  class Server {
    const step: Step
    const input: Bytes // everything the sender will ever send
    const pauses: set<nat> // the bytes that come after more than the time limit
    const faultless: bool // all that is tried on the disk and the heap succeeds
    const refused: set<nat> // how far the reader is whenever a file cannot be given its size
    const fold: string -> string // names with the same fold are one name on the disk, as for letter case
    ghost const named: Bytes -> Place // what the path of a request names
    var pos: nat // the bytes read so far
    var output: Bytes
    var files: Files

    ghost predicate Valid()
      reads this
    {
      pos <= |input| && Finds()
    }

    ghost predicate Finds() {
      forall open {:trigger FindsIf(open)} :: FindsIf(open)
    }

    /** The POSIX path that a path stands for leads to its device and names, as the disk takes them. */
    ghost predicate FindsIf(open: bool) {
      open ==> forall b {:trigger named(b)} | NamesPath(b) :: named(b) == FoldedPlace(fold, PosixPath(b))
    }

    constructor (step: Step, input: Bytes, pauses: set<nat>, faultless: bool, refused: set<nat>,
                 fold: string -> string, files: Files)
      ensures Valid() && this.step == step && this.input == input && this.pauses == pauses
      ensures this.faultless == faultless && this.refused == refused && this.fold == fold
      ensures pos == 0 && output == [] && this.files == files
    {
      this.step, this.input, this.pauses, this.files := step, input, pauses, files;
      this.faultless, this.refused, this.fold := faultless, refused, fold;
      named := b => if NamesPath(b) then FoldedPlace(fold, PosixPath(b)) else Place("", []);
      pos, output := 0, [];
    }

    // ---- The serial line ----

    /** rx_blocking: the next `n` bytes, which may come in any number of reads. */
    method Rx(n: nat) returns (ok: bool, buf: Bytes)
      requires Valid()
      modifies this`pos
      ensures Valid()
      ensures ok <==> old(pos) + n <= |input|
      ensures if ok then pos == old(pos) + n && buf == input[old(pos)..pos] else pos == |input|
    {
      buf := [];
      while |buf| < n
        invariant |buf| <= n && pos == old(pos) + |buf| <= |input| && buf == input[old(pos)..pos]
      {
        if pos == |input| {
          return false, buf;
        }
        var r: int := *;
        if 0 < r <= n - |buf| && r <= |input| - pos {
          buf, pos := buf + input[pos..pos + r], pos + r;
        } else {
          buf, pos := buf + [input[pos]], pos + 1;
        }
      }
      ok := true;
    }

    ghost predicate InTime(n: nat)
      reads this
    {
      pos + n <= |input| && forall i | pos <= i < pos + n :: i !in pauses
    }

    /** rx_blocking_timeout: as long as bytes come in time, the limit starts again. */
    method RxTimeout(n: nat) returns (ok: bool, buf: Bytes)
      requires Valid()
      modifies this`pos
      ensures Valid()
      ensures ok <==> old(InTime(n))
      ensures old(pos) <= pos <= old(pos) + n && (ok ==> pos == old(pos) + n && buf == input[old(pos)..pos])
    {
      buf := [];
      while |buf| < n
        invariant |buf| <= n && pos == old(pos) + |buf| <= |input| && buf == input[old(pos)..pos]
        invariant forall i | old(pos) <= i < pos :: i !in pauses
      {
        if pos == |input| || pos in pauses {
          return false, buf;
        }
        buf, pos := buf + [input[pos]], pos + 1;
      }
      ok := true;
    }

    /** send_response */
    method SendResponse(status: Byte, payload: Bytes) returns (out: Outcome)
      requires |payload| < 0x1_0000_0000
      modifies this`output
      ensures out == Answered(status, payload) && output == old(output) + Response(step, status, payload)
    {
      var header := [status] + Le32(|payload|);
      var crc := Crc16(step, CRC_START, header);
      CrcInPieces(step, CRC_START, header, payload);
      if payload != [] {
        crc := Crc16(step, crc, payload);
      } else {
        assert header + payload == header;
      }
      output := output + RESP_MAGIC;
      output := output + header;
      output := output + payload;
      output := output + Le16(crc);
      out := Answered(status, payload);
    }

    method SendStatus(status: Byte) returns (out: Outcome)
      modifies this`output
      ensures out == Answered(status, []) && output == old(output) + Response(step, status, [])
    {
      out := SendResponse(status, []);
    }

    // ---- Finding a frame ----

    ghost predicate MagicEndsAt(start: nat, p: nat) {
      start + 4 <= p <= |input| && input[p - 4..p] == REQ_MAGIC
    }

    /** The first magic in the bytes from `start` on ends at `p`. */
    ghost predicate FirstMagic(start: nat, p: nat) {
      MagicEndsAt(start, p) && forall q | start <= q < p :: !MagicEndsAt(start, q)
    }

    ghost predicate NoMagic(start: nat) {
      forall p :: !MagicEndsAt(start, p)
    }

    /** scan_for_magic: stops right after the first magic in the bytes from here on. */
    method ScanForMagic() returns (found: bool)
      requires Valid()
      modifies this`pos
      ensures Valid()
      ensures found ==> FirstMagic(old(pos), pos)
      ensures !found ==> pos == |input| && NoMagic(old(pos))
    {
      var window: Bytes := [0, 0, 0, 0];
      while true
        invariant Valid() && old(pos) <= pos && |window| == 4
        invariant forall k | 0 <= k < 4 :: window[k] == if pos - 4 + k >= old(pos) then input[pos - 4 + k] else 0
        invariant forall p | old(pos) <= p <= pos :: !MagicEndsAt(old(pos), p)
        decreases |input| - pos
      {
        var ok, c := Rx(1);
        if !ok {
          return false;
        }
        ghost var last := window;
        window := [window[1], window[2], window[3], c[0]];
        WindowIs(old(pos), last, window);
        if window == REQ_MAGIC {
          return true;
        }
      }
    }

    lemma WindowIs(start: nat, last: Bytes, window: Bytes)
      requires start < pos <= |input| && |last| == 4 && window == [last[1], last[2], last[3], input[pos - 1]]
      requires forall k | 0 <= k < 4 :: last[k] == if pos - 5 + k >= start then input[pos - 5 + k] else 0
      ensures forall k | 0 <= k < 4 :: window[k] == if pos - 4 + k >= start then input[pos - 4 + k] else 0
      ensures MagicEndsAt(start, pos) <==> window == REQ_MAGIC
    {
      forall k | 0 <= k < 4 ensures window[k] == if pos - 4 + k >= start then input[pos - 4 + k] else 0 {
        if k < 3 { assert window[k] == last[k + 1]; }
      }
      if pos >= start + 4 {
        assert input[pos - 4..pos] == window;
      } else {
        assert window[0] == 0;
      }
    }

    // ---- Files ----

    /** Something that may fail, unless all goes well. */
    method Succeeds() returns (ok: bool)
      ensures faultless ==> ok
    {
      ok := *;
      ok := ok || faultless;
    }

    /** open(O_WRONLY | O_CREAT | O_TRUNC), which may fail. */
    method Open(path: Place) returns (ok: bool)
      modifies this`files
      ensures faultless ==> ok
      ensures files == if ok then old(files)[path := []] else old(files)
    {
      ok := Succeeds();
      if ok {
        files := files[path := []];
      }
    }

    /** A file can be given its size when the reader is at `at`. */
    predicate Sizable(at: nat) {
      faultless || at !in refused
    }

    /** ftruncate to `n` bytes of any value, which fails where the disk refuses it. */
    method Ftruncate(path: Place, n: nat) returns (ok: bool)
      requires path in files
      modifies this`files
      ensures path in files && SameBut(old(files), files, path)
      ensures ok <==> Sizable(pos)
      ensures ok ==> |files[path]| == n
    {
      ok := Sizable(pos);
      if ok {
        var contents: Bytes := *;
        files := files[path := if |contents| == n then contents else seq(n, _ => 0)];
      }
    }

    /** write at the place `at`: any number of bytes from the front of `data`, or an error. */
    method Write(path: Place, at: nat, data: Bytes) returns (w: int)
      requires path in files && data != [] && at + |data| <= |files[path]|
      modifies this`files
      ensures w <= |data| && (faultless ==> w > 0) && path in files && SameBut(old(files), files, path)
      ensures files[path] == if w > 0 then Patched(old(files)[path], at, data[..w]) else old(files)[path]
    {
      w := *;
      if !(0 < w <= |data|) {
        var ok := Succeeds();
        w := if ok then |data| else 0;
      }
      if w > 0 {
        files := files[path := Patched(files[path], at, data[..w])];
      }
    }

    /** The writes of one chunk: until all of it is written, or one fails. */
    method WriteAll(path: Place, at: nat, chunk: Bytes) returns (ok: bool)
      requires path in files && at + |chunk| <= |files[path]|
      modifies this`files
      ensures path in files && |files[path]| == |old(files)[path]| && SameBut(old(files), files, path)
      ensures faultless ==> ok
      ensures ok ==> files[path][..at + |chunk|] == old(files)[path][..at] + chunk
    {
      var written := 0;
      while written < |chunk|
        invariant 0 <= written <= |chunk| && path in files && SameBut(old(files), files, path)
        invariant |files[path]| == |old(files)[path]|
        invariant files[path][..at] == old(files)[path][..at]
        invariant files[path][at..at + written] == chunk[..written]
      {
        ghost var before := files[path];
        var w := Write(path, at + written, chunk[written..]);
        if w <= 0 {
          return false;
        }
        PatchedAt(before, at, chunk, written, w);
        written := written + w;
      }
      assert chunk[..written] == chunk;
      Slices(files[path], 0, at, at + |chunk|);
      ok := true;
    }

    // ---- PUT ----

    /** The checksum on the wire after `len` bytes from `start` is that of the header and those bytes. */
    ghost predicate CrcRight(hdr: Bytes, start: nat, len: nat) {
      && start + len + 2 <= |input|
      && FromLe16(input[start + len..start + len + 2]) == Crc16(step, CRC_START, hdr + input[start..start + len])
    }

    /** One turn of the loop of handle_put_streamed: a chunk is taken into the checksum, and written. */
    method ReceiveChunk(path: Place, done: nat, n: nat, crc0: Crc, writing: bool)
        returns (rxOk: bool, writeOk: bool, crc: Crc)
      requires Valid() && path in files && done + n <= |files[path]|
      modifies this`pos, this`files
      ensures Valid() && old(pos) <= pos <= old(pos) + n
      ensures path in files && |files[path]| == |old(files)[path]| && SameBut(old(files), files, path)
      ensures rxOk <==> old(InTime(n))
      ensures rxOk ==>
                && pos == old(pos) + n && crc == Crc16(step, crc0, input[old(pos)..pos])
                && (faultless && writing ==> writeOk)
                && (writeOk ==> writing && files[path][..done + n] == old(files)[path][..done] + input[old(pos)..pos])
    {
      crc, writeOk := crc0, writing;
      var chunk;
      rxOk, chunk := RxTimeout(n);
      if rxOk {
        crc := Crc16(step, crc0, chunk);
        if writing {
          writeOk := WriteAll(path, done, chunk);
        }
      }
    }

    /** The loop of handle_put_streamed: the data in chunks. */
    method ReceiveData(path: Place, dataLen: nat, crc0: Crc) returns (rxOk: bool, writeOk: bool, crc: Crc)
      requires Valid() && path in files && |files[path]| == dataLen
      modifies this`pos, this`files
      ensures Valid() && old(pos) <= pos <= old(pos) + dataLen
      ensures path in files && |files[path]| == dataLen && SameBut(old(files), files, path)
      ensures rxOk <==> old(InTime(dataLen))
      ensures rxOk ==>
                && pos == old(pos) + dataLen && crc == Crc16(step, crc0, input[old(pos)..pos])
                && (faultless ==> writeOk)
                && (writeOk ==> files[path] == input[old(pos)..pos])
    {
      var remain := dataLen;
      crc, writeOk, rxOk := crc0, true, true;
      while remain > 0
        invariant 0 <= remain <= dataLen && Valid() && pos == old(pos) + (dataLen - remain)
        invariant path in files && |files[path]| == dataLen && SameBut(old(files), files, path)
        invariant forall i | old(pos) <= i < pos :: i !in pauses
        invariant crc == Crc16(step, crc0, input[old(pos)..pos])
        invariant faultless ==> writeOk
        invariant writeOk ==> files[path][..dataLen - remain] == input[old(pos)..pos]
      {
        var n := if remain < PUT_CHUNK_BYTES then remain else PUT_CHUNK_BYTES;
        ghost var at := pos;
        rxOk, writeOk, crc := ReceiveChunk(path, dataLen - remain, n, crc, writeOk);
        if !rxOk {
          return;
        }
        CrcInPieces(step, crc0, input[old(pos)..at], input[at..pos]);
        Slices(input, old(pos), at, pos);
        remain := remain - n;
      }
      assert files[path][..dataLen] == files[path];
    }

    /**
     * handle_put_streamed from the opening of the file on. `hdr` and `len` are those of the
     * frame, which starts at `start`.
     */
    method PutFile(path: Place, dataLen: nat, crc0: Crc, ghost hdr: Bytes, ghost start: nat, ghost len: nat)
        returns (out: Outcome)
      requires Valid() && dataLen <= len <= MAX_PAYLOAD_BYTES && pos == start + (len - dataLen)
      requires crc0 == Crc16(step, CRC_START, hdr + input[start..pos])
      modifies this`pos, this`files, this`output
      ensures Valid() && old(pos) <= pos && SameBut(old(files), files, path) && StopsIn(start, len, out, pos)
      ensures PutOutcome(hdr, start, len, path, dataLen, out, old(files), files)
      ensures Told(out, old(output), output) && (out.Waiting? ==> pos == |input|)
    {
      var fd := Open(path);
      if !fd {
        out := SendStatus(ST_ERR_FOPEN);
        return;
      }
      var fits := Ftruncate(path, dataLen);
      if !fits {
        files := files - {path};
        out := SendStatus(ST_ERR_WRITE);
        return;
      }
      ghost var from := pos;
      var rxOk, writeOk, crc := ReceiveData(path, dataLen, crc0);
      if !rxOk {
        files := files - {path};
        out := SendStatus(ST_ERR_BAD_FRAME);
        return;
      }
      CrcOfFrame(hdr, start, from, pos);
      out := FinishPut(path, dataLen, crc, writeOk, hdr, start, len);
    }

    lemma {:induction false} CrcOfFrame(hdr: Bytes, start: nat, from: nat, to: nat)
      requires start <= from <= to <= |input|
      ensures Crc16(step, Crc16(step, CRC_START, hdr + input[start..from]), input[from..to])
              == Crc16(step, CRC_START, hdr + input[start..to])
    {
      CrcInPieces(step, CRC_START, hdr + input[start..from], input[from..to]);
      Slices(input, start, from, to);
      Regroup(hdr, input[start..from], input[from..to]);
    }

    /** The end of handle_put_streamed: the checksum of the sender, and the verdict. */
    method FinishPut(path: Place, dataLen: nat, crc: Crc, writeOk: bool, ghost hdr: Bytes, ghost start: nat,
                     ghost len: nat)
        returns (out: Outcome)
      requires Valid() && dataLen <= len <= MAX_PAYLOAD_BYTES && pos == start + len
      requires crc == Crc16(step, CRC_START, hdr + input[start..pos])
      requires path in files && |files[path]| == dataLen
               && (writeOk ==> files[path] == input[start + len - dataLen..start + len])
      requires DataInTime(start, len, dataLen) && (faultless ==> writeOk) && Sizable(start + len - dataLen)
      modifies this`pos, this`files, this`output
      ensures Valid() && old(pos) <= pos && SameBut(old(files), files, path) && StopsIn(start, len, out, pos)
      ensures out != Answered(ST_ERR_FOPEN, [])
      ensures out.Answered? && out.status == ST_ERR_WRITE ==> path in files
      ensures forall before :: PutOutcome(hdr, start, len, path, dataLen, out, before, files)
      ensures Told(out, old(output), output) && (out.Waiting? ==> pos == |input|)
    {
      var ok, crcBytes := Rx(2);
      if !ok {
        return Waiting;
      }
      var crcWire := FromLe16(crcBytes);
      if crc != crcWire {
        files := files - {path};
        out := SendStatus(ST_ERR_BAD_FRAME);
        return;
      }
      if !writeOk {
        out := SendStatus(ST_ERR_WRITE);
        return;
      }
      out := SendResponse(ST_OK, Le32(dataLen));
    }

    /**
     * An answered frame whose payload starts at `start` is read up to `end`: no further
     * than it goes, and to its end for OK.
     */
    ghost predicate StopsIn(start: nat, len: nat, out: Outcome, end: nat) {
      out.Answered? ==> start <= end <= start + len + 2 && (out.status == ST_OK ==> end == start + len + 2)
    }

    /** The data at the end of the frame comes in time. */
    ghost predicate DataInTime(start: nat, len: nat, dataLen: nat) {
      start + len <= |input| && forall i: nat {:trigger i in pauses} | start + len - dataLen <= i < start + len ::
        i !in pauses
    }

    /** How a PUT of data at the end of a frame can end. */
    ghost predicate PutOutcome(hdr: Bytes, start: nat, len: nat, path: Place, dataLen: nat,
                               out: Outcome, before: Files, after: Files)
      requires dataLen <= len <= MAX_PAYLOAD_BYTES
    {
      forall open {:trigger PutOutcomeIf(open, hdr, start, len, path, dataLen, out, before, after)} ::
        PutOutcomeIf(open, hdr, start, len, path, dataLen, out, before, after)
    }

    ghost predicate PutOutcomeIf(open: bool, hdr: Bytes, start: nat, len: nat, path: Place, dataLen: nat,
                                 out: Outcome, before: Files, after: Files)
      requires dataLen <= len <= MAX_PAYLOAD_BYTES
    {
      open ==>
      match out
      case Waiting => start + len + 2 > |input|
      case Answered(status, payload) =>
        && status in {ST_OK, ST_ERR_FOPEN, ST_ERR_WRITE, ST_ERR_BAD_FRAME}
        && (faultless ==> status in {ST_OK, ST_ERR_BAD_FRAME})
        && (status != ST_OK ==> payload == [])
        && (status == ST_OK ==>
              && CrcRight(hdr, start, len) && DataInTime(start, len, dataLen)
              && path in after && after[path] == input[start + len - dataLen..start + len]
              && payload == Le32(dataLen))
        && (status == ST_ERR_FOPEN ==> after == before)
        && (!Sizable(start + len - dataLen) ==> status in {ST_ERR_FOPEN, ST_ERR_WRITE})
        && (status == ST_ERR_WRITE ==> (path in after <==> Sizable(start + len - dataLen)))
        && (status == ST_ERR_WRITE && path in after ==>
              |after[path]| == dataLen && CrcRight(hdr, start, len) && DataInTime(start, len, dataLen))
        && (status == ST_ERR_BAD_FRAME ==>
              && path !in after
              && !(CrcRight(hdr, start, len) && DataInTime(start, len, dataLen)))
    }

    /** The length of the path in a payload at `start`. */
    ghost function PathLenAt(start: nat): nat
      requires start + 2 <= |input|
    {
      FromLe16(input[start..start + 2])
    }

    /** The payload of `len` bytes at `start` begins with a path, and what has come of it names one. */
    ghost predicate PathAt(start: nat, len: nat) {
      && 2 <= len && start + 2 <= |input|
      && 2 + PathLenAt(start) <= len && start + 2 + PathLenAt(start) <= |input|
      && NamesPath(input[start + 2..start + 2 + PathLenAt(start)])
    }

    ghost function NamedAt(start: nat, len: nat): Place
      requires PathAt(start, len)
    {
      named(input[start + 2..start + 2 + PathLenAt(start)])
    }

    ghost function OnlyPath(payload: Bytes): Place
      requires PathOnly(payload)
    {
      named(payload[2..2 + FromLe16(payload[..2])])
    }

    /** vms_to_posix, and what the file system finds under the result. */
    method ConvertPath(b: Bytes) returns (place: Option<Place>)
      requires Finds() && 0 < |b| < MAX_PATH_BYTES
      ensures place == if NamesPath(b) then Some(named(b)) else None
    {
      assert NamesPath(b) ==> NamesPathIf(true, b);
      assert FindsIf(true);
      var posix := Paths.VmsToPosix(CString(b), PATH_BUFFER);
      if posix.None? {
        return None;
      }
      place := Some(FoldedPlace(fold, posix.value));
    }

    /**
     * handle_put_streamed. After WRITE the file is gone if it could not be given its size,
     * and else it has that size, and whatever part of the data was written.
     */
    method HandlePutStreamed(hdr: Bytes, len: nat) returns (out: Outcome)
      requires Valid() && len <= MAX_PAYLOAD_BYTES
      modifies this`pos, this`files, this`output
      ensures Valid() && old(pos) <= pos && Told(out, old(output), output) && (out.Waiting? ==> pos == |input|)
      ensures PutFrame(hdr, old(pos), len, out, old(files), files) && StopsIn(old(pos), len, out, pos)
    {
      ghost var start := pos;
      var crc := Crc16(step, CRC_START, hdr);
      if len < 2 {
        out := SendStatus(ST_ERR_BAD_FRAME);
        return;
      }
      var ok, pathLenBytes := Rx(2);
      if !ok {
        out := Waiting;
        return;
      }
      CrcInPieces(step, CRC_START, hdr, pathLenBytes);
      assert pathLenBytes == input[start..pos];
      crc := Crc16(step, crc, pathLenBytes);
      var pathLen := FromLe16(pathLenBytes);
      var remaining := len - 2;
      if pathLen == 0 || pathLen >= MAX_PATH_BYTES || pathLen > remaining {
        out := SendStatus(if pathLen > remaining then ST_ERR_BAD_FRAME else ST_ERR_BAD_PATH);
        return;
      }
      out := PutNamed(hdr, len, pathLen, crc, start);
    }

    /** handle_put_streamed from the path on, whose length has been read. */
    method PutNamed(hdr: Bytes, len: nat, pathLen: nat, crc0: Crc, ghost start: nat) returns (out: Outcome)
      requires Valid() && len <= MAX_PAYLOAD_BYTES && pos == start + 2
      requires pathLen == PathLenAt(start) && 0 < pathLen < MAX_PATH_BYTES && 2 + pathLen <= len
      requires crc0 == Crc16(step, CRC_START, hdr + input[start..pos])
      modifies this`pos, this`files, this`output
      ensures Valid() && old(pos) <= pos && Told(out, old(output), output) && (out.Waiting? ==> pos == |input|)
      ensures PutFrame(hdr, start, len, out, old(files), files) && StopsIn(start, len, out, pos)
    {
      var ok, path := Rx(pathLen);
      if !ok {
        NoPathAt(hdr, start, len, Waiting, files);
        return Waiting;
      }
      CrcOfFrame(hdr, start, start + 2, pos);
      var crc := Crc16(step, crc0, path);
      ghost var before := files;
      var place := ConvertPath(path);
      PathIsAt(start, len, path, place);
      if place.None? {
        out := SendStatus(ST_ERR_BAD_PATH);
        NoPathAt(hdr, start, len, out, files);
        return;
      }
      out := PutFile(place.value, len - 2 - pathLen, crc, hdr, start, len);
      PutAt(hdr, start, len, place.value, out, before, files);
    }

    lemma {:induction false} NoPathAt(hdr: Bytes, start: nat, len: nat, out: Outcome, files: Files)
      requires len <= MAX_PAYLOAD_BYTES && !PathAt(start, len)
      requires if out.Waiting? then start + len > |input| else out == Answered(PathErrorAt(start, len), [])
      ensures PutFrame(hdr, start, len, out, files, files)
    {
    }

    lemma {:induction false} PutAt(hdr: Bytes, start: nat, len: nat, place: Place, out: Outcome, before: Files,
                                   after: Files)
      requires len <= MAX_PAYLOAD_BYTES && PathAt(start, len) && NamedAt(start, len) == place
      requires SameBut(before, after, place)
      requires PutOutcome(hdr, start, len, place, len - 2 - PathLenAt(start), out, before, after)
      ensures PutFrame(hdr, start, len, out, before, after)
    {
    }

    lemma {:induction false} PathIsAt(start: nat, len: nat, path: Bytes, place: Option<Place>)
      requires start + 2 <= |input| && 2 + PathLenAt(start) <= len && start + 2 + PathLenAt(start) <= |input|
      requires path == input[start + 2..start + 2 + PathLenAt(start)]
      requires place == if NamesPath(path) then Some(named(path)) else None
      ensures place == if PathAt(start, len) then Some(NamedAt(start, len)) else None
    {
    }

    /** What is wrong with the path of a PUT. */
    ghost function PathErrorAt(start: nat, len: nat): Byte {
      if len < 2 || (start + 2 <= |input| && PathLenAt(start) > len - 2) then ST_ERR_BAD_FRAME else ST_ERR_BAD_PATH
    }

    /** How a PUT frame whose payload starts at `start` can end. */
    ghost predicate PutFrame(hdr: Bytes, start: nat, len: nat, out: Outcome, before: Files, after: Files)
      requires len <= MAX_PAYLOAD_BYTES
    {
      forall open {:trigger PutFrameIf(open, hdr, start, len, out, before, after)} ::
        PutFrameIf(open, hdr, start, len, out, before, after)
    }

    ghost predicate PutFrameIf(open: bool, hdr: Bytes, start: nat, len: nat, out: Outcome, before: Files, after: Files)
      requires len <= MAX_PAYLOAD_BYTES
    {
      open ==>
      if PathAt(start, len) then
        && SameBut(before, after, NamedAt(start, len))
        && PutOutcome(hdr, start, len, NamedAt(start, len), len - 2 - PathLenAt(start), out, before, after)
      else
        after == before
        && match out
           case Waiting => start + len > |input|
           case Answered(_, _) => out == Answered(PathErrorAt(start, len), [])
    }

    // ---- The other requests ----

    /** decode_path_only_payload */
    method DecodePath(payload: Bytes) returns (place: Option<Place>, out: Outcome)
      requires Finds()
      modifies this`output
      ensures place.Some? <==> PathOnly(payload)
      ensures place.Some? ==> place.value == OnlyPath(payload) && output == old(output)
      ensures place.None? ==> Told(out, old(output), output) && out == Answered(PathError(payload), [])
    {
      place, out := None, Waiting;
      if |payload| < 2 {
        out := SendStatus(ST_ERR_BAD_FRAME);
        return;
      }
      var pathLen := FromLe16(payload[..2]);
      if pathLen == 0 || pathLen >= MAX_PATH_BYTES {
        out := SendStatus(ST_ERR_BAD_PATH);
        return;
      }
      if pathLen + 2 > |payload| {
        out := SendStatus(ST_ERR_BAD_FRAME);
        return;
      }
      place := ConvertPath(payload[2..2 + pathLen]);
      if place.None? {
        out := SendStatus(ST_ERR_BAD_PATH);
      }
    }

    /** handle_get */
    method HandleGet(payload: Bytes) returns (out: Outcome)
      requires Finds()
      modifies this`output
      ensures Told(out, old(output), output) && out.Answered? && Served(CMD_GET, payload, out, files, files)
    {
      var place;
      place, out := DecodePath(payload);
      if place.None? {
        return;
      }
      var path := place.value;
      var fd := Succeeds();
      if !fd || path !in files {
        out := SendStatus(ST_ERR_FOPEN);
        return;
      }
      var stat := Succeeds();
      if !stat || |files[path]| > MAX_PAYLOAD_BYTES {
        out := SendStatus(ST_ERR_TOO_BIG);
        return;
      }
      var memory := Succeeds();
      if files[path] != [] && !memory {
        out := SendStatus(ST_ERR_OOM);
        return;
      }
      out := ReadFile(files[path]);
    }

    /** The end of handle_get: reads the whole file, in pieces of any size. */
    method ReadFile(file: Bytes) returns (out: Outcome)
      requires |file| <= MAX_PAYLOAD_BYTES
      modifies this`output
      ensures Told(out, old(output), output)
      ensures out == Answered(ST_OK, file) || (!faultless && out == Answered(ST_ERR_READ, []))
    {
      var buf: Bytes := [];
      while |buf| < |file|
        invariant |buf| <= |file| && buf == file[..|buf|] && output == old(output)
      {
        var n: int := *;
        if !(0 < n <= |file| - |buf|) {
          var read := Succeeds();
          if !read {
            out := SendStatus(ST_ERR_READ);
            return;
          }
          n := |file| - |buf|;
        }
        buf := buf + file[|buf|..|buf| + n];
      }
      out := SendResponse(ST_OK, buf);
    }

    /** handle_list, for the lines that the directory makes, if there is one: those that come first and fit. */
    method HandleList(payload: Bytes, lines: Option<seq<Bytes>>) returns (out: Outcome)
      requires Finds()
      modifies this`output
      ensures Told(out, old(output), output) && out.Answered? && Served(CMD_LIST, payload, out, files, files)
      ensures out.Answered? && out.status == ST_OK ==>
              lines.Some? && out.payload == Listing(lines.value, LIST_BUFFER_BYTES)
      ensures faultless && PathOnly(payload) && lines.Some? ==> out.Answered? && out.status == ST_OK
    {
      var place;
      place, out := DecodePath(payload);
      if place.None? {
        return;
      }
      var dir := Succeeds();
      if !dir || lines.None? {
        out := SendStatus(ST_ERR_FOPEN);
        return;
      }
      var memory := Succeeds();
      if !memory {
        out := SendStatus(ST_ERR_OOM);
        return;
      }
      var buf := ReadDirectory(lines.value);
      out := SendResponse(ST_OK, buf);
    }

    method ReadDirectory(lines: seq<Bytes>) returns (buf: Bytes)
      ensures buf == Listing(lines, LIST_BUFFER_BYTES) && |buf| <= LIST_BUFFER_BYTES
    {
      buf := [];
      var i := 0;
      while i < |lines| && |buf| + |lines[i]| <= LIST_BUFFER_BYTES
        invariant 0 <= i <= |lines| && |buf| <= LIST_BUFFER_BYTES
        invariant Listing(lines, LIST_BUFFER_BYTES) == buf + Listing(lines[i..], LIST_BUFFER_BYTES - |buf|)
      {
        ghost var rest := lines[i..];
        assert rest[0] == lines[i] && rest[1..] == lines[i + 1..];
        Regroup(buf, lines[i], Listing(lines[i + 1..], LIST_BUFFER_BYTES - |buf| - |lines[i]|));
        buf := buf + lines[i];
        i := i + 1;
      }
    }

    /** handle_delete: the file or everything in the directory, or part of it when something fails. */
    method HandleDelete(payload: Bytes) returns (out: Outcome)
      requires Finds()
      modifies this`output, this`files
      ensures Told(out, old(output), output) && out.Answered? && Served(CMD_DELETE, payload, out, old(files), files)
    {
      var place;
      place, out := DecodePath(payload);
      if place.None? {
        return;
      }
      var path := place.value;
      var below := set q | q in files && Under(path, q);
      var ok := Succeeds();
      if !ok {
        var some: set<Place> := *;
        files := files - (below * some);
        out := SendStatus(ST_ERR_WRITE);
        return;
      }
      files := files - below;
      out := SendResponse(ST_OK, []);
    }

    // ---- The frame reader ----

    /** The length that the frame header at `start` declares. */
    ghost function LenAt(start: nat): nat
      requires start + 5 <= |input|
    {
      FromLe32(input[start + 1..start + 5])
    }

    /** All bytes that process_one_frame needs for the frame at `start` come. */
    ghost predicate Complete(start: nat) {
      start + 5 <= |input| && (LenAt(start) > MAX_PAYLOAD_BYTES || start + 5 + LenAt(start) + 2 <= |input|)
    }

    /** What a frame other than PUT with the right checksum comes to. */
    ghost predicate Served(cmd: Byte, body: Bytes, out: Outcome, before: Files, after: Files) {
      forall open {:trigger ServedIf(open, cmd, body, out, before, after)} ::
        ServedIf(open, cmd, body, out, before, after)
    }

    ghost predicate ServedIf(open: bool, cmd: Byte, body: Bytes, out: Outcome, before: Files, after: Files) {
      open ==>
      && out.Answered?
      && if cmd == CMD_PING then
           out == Answered(ST_OK, VERSION) && after == before
         else if cmd in {CMD_GET, CMD_LIST, CMD_DELETE} && !PathOnly(body) then
           out == Answered(PathError(body), []) && after == before
         else if cmd == CMD_GET then
           && after == before
           && (if out.status == ST_OK then Readable(body, before, out.payload) else out.payload == [])
           && (faultless ==> out == Fetched(OnlyPath(body), before))
         else if cmd == CMD_LIST then
           && after == before && (if out.status == ST_OK then |out.payload| <= LIST_BUFFER_BYTES else out.payload == [])
           && (faultless ==> out.status in {ST_OK, ST_ERR_FOPEN})
         else if cmd == CMD_DELETE then
           && after.Keys <= before.Keys && (forall q | q in after :: after[q] == before[q])
           && (forall q | q in before && q !in after :: Under(OnlyPath(body), q))
           && out in {Answered(ST_OK, []), Answered(ST_ERR_WRITE, [])} && (faultless ==> out.status == ST_OK)
           && (out.status == ST_OK ==> forall q | q in after :: !Under(OnlyPath(body), q))
         else
           out == Answered(ST_ERR_UNKNOWN_CMD, []) && after == before
    }

    /** The body names a file whose contents are `data`. */
    ghost predicate Readable(body: Bytes, files: Files, data: Bytes)
      requires PathOnly(body)
    {
      OnlyPath(body) in files && data == files[OnlyPath(body)] && |data| <= MAX_PAYLOAD_BYTES
    }

    /** What the frame with its header at `start` comes to. */
    ghost predicate FrameDone(start: nat, out: Outcome, before: Files, after: Files) {
      forall open {:trigger FrameDoneIf(open, start, out, before, after)} ::
        FrameDoneIf(open, start, out, before, after)
    }

    ghost predicate FrameDoneIf(open: bool, start: nat, out: Outcome, before: Files, after: Files) {
      open ==>
      if start + 5 > |input| then
        out.Waiting? && after == before
      else
        var hdr, len := input[start..start + 5], LenAt(start);
        if len > MAX_PAYLOAD_BYTES then
          out == Answered(ST_ERR_TOO_BIG, []) && after == before
        else if hdr[0] == CMD_PUT then
          PutFrame(hdr, start + 5, len, out, before, after)
        else if !faultless && len > 0 && out == Answered(ST_ERR_OOM, []) && after == before then
          true
        else if start + 5 + len + 2 > |input| then
          out.Waiting? && after == before
        else if !CrcRight(hdr, start + 5, len) then
          out == Answered(ST_ERR_BAD_FRAME, []) && after == before
        else
          Served(hdr[0], input[start + 5..start + 5 + len], out, before, after)
    }

    /** Where the reader is after the frame with its header at `start`. */
    ghost predicate FrameStops(start: nat, out: Outcome, end: nat) {
      out.Answered? ==>
        && start + 5 <= |input|
        && if LenAt(start) > MAX_PAYLOAD_BYTES then end == start + 5
           else StopsIn(start + 5, LenAt(start), out, end) && (faultless ==> StopsAfter(start, end))
    }

    /** A frame other than PUT is read to its end. */
    ghost predicate StopsAfter(start: nat, end: nat)
      requires start + 5 <= |input|
    {
      input[start] != CMD_PUT ==> end == start + 5 + LenAt(start) + 2
    }

    /** process_one_frame: every frame whose bytes all come is answered, once. */
    method ProcessOneFrame() returns (out: Outcome)
      requires Valid()
      modifies this`pos, this`files, this`output
      ensures Valid() && Told(out, old(output), output) && old(pos) <= pos
      ensures out.Waiting? ==> pos == |input| && !Complete(old(pos))
      ensures FrameDone(old(pos), out, old(files), files) && FrameStops(old(pos), out, pos)
    {
      ghost var start := pos;
      var ok, hdr := Rx(5);
      if !ok {
        return Waiting;
      }
      var cmd, len := hdr[0], FromLe32(hdr[1..5]);
      Inside(input, start, start + 5, 1, 5);
      if len > MAX_PAYLOAD_BYTES {
        out := SendStatus(ST_ERR_TOO_BIG);
        return;
      }
      if cmd == CMD_PUT {
        out := HandlePutStreamed(hdr, len);
        PutWaits(hdr, start, out, old(files), files);
        return;
      }
      var memory := Succeeds();
      if len > 0 && !memory {
        out := SendStatus(ST_ERR_OOM);
        return;
      }
      out := GenericFrame(hdr, len);
    }

    lemma {:induction false} PutWaits(hdr: Bytes, start: nat, out: Outcome, before: Files, after: Files)
      requires start + 5 <= |input| && LenAt(start) <= MAX_PAYLOAD_BYTES
      requires PutFrame(hdr, start + 5, LenAt(start), out, before, after)
      ensures out.Waiting? ==> !Complete(start)
    {
      var len := LenAt(start);
      assert PutFrameIf(true, hdr, start + 5, len, out, before, after);
      if PathAt(start + 5, len) {
        assert PutOutcomeIf(true, hdr, start + 5, len, NamedAt(start + 5, len), len - 2 - PathLenAt(start + 5),
                            out, before, after);
      }
    }

    /** The part of process_one_frame for the commands whose payload is read as a whole. */
    method GenericFrame(hdr: Bytes, len: nat) returns (out: Outcome)
      requires Valid() && |hdr| == 5 && len <= MAX_PAYLOAD_BYTES && hdr[0] != CMD_PUT
      modifies this`pos, this`files, this`output
      ensures Valid() && Told(out, old(output), output) && old(pos) <= pos && StopsIn(old(pos), len, out, pos)
      ensures out.Waiting? <==> old(pos) + len + 2 > |input|
      ensures out.Answered? ==> pos == old(pos) + len + 2
      ensures out.Waiting? ==> pos == |input| && files == old(files)
      ensures out.Answered? && !CrcRight(hdr, old(pos), len) ==>
              out == Answered(ST_ERR_BAD_FRAME, []) && files == old(files)
      ensures out.Answered? && CrcRight(hdr, old(pos), len) ==>
                Served(hdr[0], input[old(pos)..old(pos) + len], out, old(files), files)
    {
      var ok, payload := Rx(len);
      if !ok {
        return Waiting;
      }
      var crcBytes;
      ok, crcBytes := Rx(2);
      if !ok {
        return Waiting;
      }
      var crcWire := FromLe16(crcBytes);
      var crc := Crc16(step, CRC_START, hdr);
      CrcInPieces(step, CRC_START, hdr, payload);
      crc := Crc16(step, crc, payload);
      if crc != crcWire {
        out := SendStatus(ST_ERR_BAD_FRAME);
        return;
      }
      out := Dispatch(hdr[0], payload);
    }

    method Dispatch(cmd: Byte, payload: Bytes) returns (out: Outcome)
      requires Finds() && cmd != CMD_PUT
      modifies this`files, this`output
      ensures Told(out, old(output), output) && out.Answered? && Served(cmd, payload, out, old(files), files)
    {
      if cmd == CMD_PING {
        out := SendResponse(ST_OK, VERSION);
      } else if cmd == CMD_GET {
        out := HandleGet(payload);
      } else if cmd == CMD_LIST {
        var lines: Option<seq<Bytes>> := *;
        out := HandleList(payload, lines);
      } else if cmd == CMD_DELETE {
        out := HandleDelete(payload);
      } else {
        out := SendStatus(ST_ERR_UNKNOWN_CMD);
      }
    }

    /** What an answer to a PUT comes to, once its path has been read. */
    lemma {:induction false} PutDone(start: nat, out: Outcome, before: Files, after: Files)
      requires start + 5 <= |input| && LenAt(start) <= MAX_PAYLOAD_BYTES && input[start] == CMD_PUT
      requires FrameDone(start, out, before, after) && out.Answered?
      ensures var hdr, len := input[start..start + 5], LenAt(start);
              if PathAt(start + 5, len) then
                && SameBut(before, after, NamedAt(start + 5, len))
                && PutOutcome(hdr, start + 5, len, NamedAt(start + 5, len), len - 2 - PathLenAt(start + 5),
                              out, before, after)
              else
                after == before && out == Answered(PathErrorAt(start + 5, len), [])
    {
      FrameIsPut(start, out, before, after);
      PutHasPath(input[start..start + 5], start + 5, LenAt(start), out, before, after);
    }

    lemma {:induction false} FrameIsPut(start: nat, out: Outcome, before: Files, after: Files)
      requires start + 5 <= |input| && LenAt(start) <= MAX_PAYLOAD_BYTES && input[start] == CMD_PUT
      requires FrameDone(start, out, before, after)
      ensures PutFrame(input[start..start + 5], start + 5, LenAt(start), out, before, after)
    {
      assert FrameDoneIf(true, start, out, before, after);
    }

    lemma {:induction false} PutHasPath(hdr: Bytes, start: nat, len: nat, out: Outcome, before: Files, after: Files)
      requires len <= MAX_PAYLOAD_BYTES && PutFrame(hdr, start, len, out, before, after) && out.Answered?
      ensures if PathAt(start, len) then
                && SameBut(before, after, NamedAt(start, len))
                && PutOutcome(hdr, start, len, NamedAt(start, len), len - 2 - PathLenAt(start), out, before, after)
              else
                after == before && out == Answered(PathErrorAt(start, len), [])
    {
      assert PutFrameIf(true, hdr, start, len, out, before, after);
    }

    lemma {:induction false} PutVerdict(hdr: Bytes, start: nat, len: nat, path: Place, n: nat,
                                        out: Outcome, before: Files, after: Files)
      requires n <= len <= MAX_PAYLOAD_BYTES && out.Answered?
      requires PutOutcome(hdr, start, len, path, n, out, before, after)
      ensures var right := CrcRight(hdr, start, len) && DataInTime(start, len, n);
              && (out.status == ST_OK ==>
                    && right && path in after && after[path] == input[start + len - n..start + len]
                    && out.payload == Le32(n))
              && (out.status == ST_ERR_BAD_FRAME ==> path !in after)
              && (out.status == ST_ERR_WRITE ==> (path in after <==> Sizable(start + len - n)))
              && (out.status == ST_ERR_WRITE && path in after ==> |after[path]| == n && right)
              && (out.status != ST_OK ==> out.payload == [])
              && (right ==> out.status in {ST_OK, ST_ERR_FOPEN, ST_ERR_WRITE})
              && (faultless ==> out.status == if right then ST_OK else ST_ERR_BAD_FRAME)
    {
      assert PutOutcomeIf(true, hdr, start, len, path, n, out, before, after);
    }

    /**
     * What an answer to a PUT says. OK: the checksum was right and the file holds exactly
     * the data. BAD_FRAME after the path: no file. A frame with a path, a right checksum
     * and data that come in time is refused for reasons of the file system only, and not
     * if that is faultless. No other file is touched.
     */
    lemma {:induction false} PutGuarantee(start: nat, out: Outcome, before: Files, after: Files)
      requires start + 5 <= |input| && LenAt(start) <= MAX_PAYLOAD_BYTES && input[start] == CMD_PUT
      requires FrameDone(start, out, before, after) && out.Answered?
      ensures out.status == ST_OK ==> PathAt(start + 5, LenAt(start))
      ensures !PathAt(start + 5, LenAt(start)) ==> after == before
      ensures PathAt(start + 5, LenAt(start)) ==>
                var path, n := NamedAt(start + 5, LenAt(start)), LenAt(start) - 2 - PathLenAt(start + 5);
                var right := CrcRight(input[start..start + 5], start + 5, LenAt(start))
                             && DataInTime(start + 5, LenAt(start), n);
                && SameBut(before, after, path)
                && (out.status == ST_OK ==>
                      && right && path in after
                      && after[path] == input[start + 5 + LenAt(start) - n..start + 5 + LenAt(start)])
                && (out.status == ST_ERR_BAD_FRAME ==> path !in after)
                && (out.status == ST_ERR_WRITE ==> (path in after <==> Sizable(start + 5 + LenAt(start) - n)))
                && (out.status == ST_ERR_WRITE && path in after ==> |after[path]| == n && right)
                && (right ==> out.status in {ST_OK, ST_ERR_FOPEN, ST_ERR_WRITE})
                && (right && faultless ==> out.status == ST_OK)
    {
      var hdr, len := input[start..start + 5], LenAt(start);
      PutDone(start, out, before, after);
      if PathAt(start + 5, len) {
        PutVerdict(hdr, start + 5, len, NamedAt(start + 5, len), len - 2 - PathLenAt(start + 5), out, before, after);
      }
    }

    /** Two maps that agree at `path` and everywhere else are the same. */
    lemma SameFiles(before: Files, after: Files, after': Files, path: Place)
      requires SameBut(before, after, path) && SameBut(before, after', path)
      requires (path in after <==> path in after') && (path in after ==> after[path] == after'[path])
      ensures after == after'
    {
      assert after - {path} == after' - {path};
      forall q ensures (q in after <==> q in after') && (q in after && q in after' ==> after[q] == after'[q]) {
        if q != path {
          assert q in after <==> q in after - {path};
          assert q in after' <==> q in after' - {path};
        }
      }
    }

    /** When nothing fails, a PUT that is answered has one outcome only. */
    lemma {:induction false} OnePutOutcome(hdr: Bytes, start: nat, len: nat,
                                           before: Files, out: Outcome, after: Files, out': Outcome, after': Files)
      requires faultless && len <= MAX_PAYLOAD_BYTES
      requires PutFrame(hdr, start, len, out, before, after) && out.Answered?
      requires PutFrame(hdr, start, len, out', before, after') && out'.Answered?
      ensures out == out' && after == after'
    {
      PutHasPath(hdr, start, len, out, before, after);
      PutHasPath(hdr, start, len, out', before, after');
      if PathAt(start, len) {
        var path, n := NamedAt(start, len), len - 2 - PathLenAt(start);
        PutVerdict(hdr, start, len, path, n, out, before, after);
        PutVerdict(hdr, start, len, path, n, out', before, after');
        SameFiles(before, after, after', path);
      }
    }

    /** When nothing fails, every request but LIST that is answered has one outcome only. */
    lemma {:induction false} OneOutcome(start: nat, before: Files, out: Outcome, after: Files, out': Outcome,
                                        after': Files)
      requires faultless && start + 5 <= |input| && input[start] != CMD_LIST
      requires FrameDone(start, out, before, after) && out.Answered?
      requires FrameDone(start, out', before, after') && out'.Answered?
      ensures out == out' && after == after'
    {
      assert FrameDoneIf(true, start, out, before, after) && FrameDoneIf(true, start, out', before, after');
      if LenAt(start) <= MAX_PAYLOAD_BYTES {
        if input[start] == CMD_PUT {
          FrameIsPut(start, out, before, after);
          FrameIsPut(start, out', before, after');
          OnePutOutcome(input[start..start + 5], start + 5, LenAt(start), before, out, after, out', after');
        } else if CrcRight(input[start..start + 5], start + 5, LenAt(start)) {
          var body := input[start + 5..start + 5 + LenAt(start)];
          assert ServedIf(true, input[start], body, out, before, after);
          assert ServedIf(true, input[start], body, out', before, after');
        }
      }
    }

    // ---- Every run ----

    /** The frame at `start` neither puts the file nor deletes it. */
    ghost predicate Spares(start: nat, path: Place) {
      forall open {:trigger SparesIf(open, start, path)} :: SparesIf(open, start, path)
    }

    ghost predicate SparesIf(open: bool, start: nat, path: Place) {
      open && start + 5 <= |input| ==>
        var len := LenAt(start);
        && (input[start] == CMD_PUT && PathAt(start + 5, len) ==> NamedAt(start + 5, len) != path)
        && (input[start] == CMD_DELETE && start + 5 + len <= |input| && PathOnly(input[start + 5..start + 5 + len]) ==>
              !Under(OnlyPath(input[start + 5..start + 5 + len]), path))
    }

    ghost predicate SameFile(before: Files, after: Files, path: Place) {
      (path in before <==> path in after) && (path in before ==> before[path] == after[path])
    }

    lemma {:induction false} SparedFileStays(start: nat, out: Outcome, before: Files, after: Files, path: Place)
      requires FrameDone(start, out, before, after) && out.Answered? && Spares(start, path)
      ensures SameFile(before, after, path)
    {
      assert SparesIf(true, start, path);
      assert FrameDoneIf(true, start, out, before, after);
      if start + 5 <= |input| && LenAt(start) <= MAX_PAYLOAD_BYTES {
        if input[start] == CMD_PUT {
          PutDone(start, out, before, after);
          if PathAt(start + 5, LenAt(start)) {
            OthersStay(before, after, NamedAt(start + 5, LenAt(start)), path);
          }
        } else if after != before && CrcRight(input[start..start + 5], start + 5, LenAt(start)) {
          assert ServedIf(true, input[start], input[start + 5..start + 5 + LenAt(start)], out, before, after);
        }
      }
    }

    lemma OthersStay(before: Files, after: Files, changed: Place, path: Place)
      requires SameBut(before, after, changed) && path != changed
      ensures SameFile(before, after, path)
    {
      assert path in before <==> path in before - {changed};
      assert path in after <==> path in after - {changed};
    }

    /** The frames that were answered from `from` on: each follows the first magic after the one before it. */
    ghost predicate IsRun(from: nat, before: Files, run: seq<Answer>) {
      forall i | 0 <= i < |run| :: FollowsAt(from, before, run, i)
    }

    ghost predicate FollowsAt(from: nat, before: Files, run: seq<Answer>, i: nat)
      requires i < |run|
    {
      Follows(StopBefore(from, run, i), FilesBefore(before, run, i), run[i])
    }

    /** The answer is that to the frame at the first magic from `from` on. */
    ghost predicate Follows(from: nat, before: Files, a: Answer) {
      forall open {:trigger FollowsIf(open, from, before, a)} :: FollowsIf(open, from, before, a)
    }

    ghost predicate FollowsIf(open: bool, from: nat, before: Files, a: Answer) {
      open ==>
      && FirstMagic(from, a.start) && a.out.Answered?
      && FrameDone(a.start, a.out, before, a.files) && FrameStops(a.start, a.out, a.stop)
    }

    lemma ItFollows(from: nat, before: Files, a: Answer)
      requires FirstMagic(from, a.start) && a.out.Answered? && FrameDone(a.start, a.out, before, a.files)
      requires FrameStops(a.start, a.out, a.stop)
      ensures Follows(from, before, a)
    {
    }

    /** Nothing more can be answered from `from` on: there is no magic, or the frame after it does not come whole. */
    ghost predicate NoMore(from: nat, before: Files, after: Files) {
      || (NoMagic(from) && after == before)
      || exists start :: FirstMagic(from, start) && !Complete(start) && FrameDone(start, Waiting, before, after)
    }

    lemma {:induction false} OneMoreAnswer(from: nat, before: Files, run: seq<Answer>, a: Answer)
      requires IsRun(from, before, run)
      requires Follows(StopBefore(from, run, |run|), FilesBefore(before, run, |run|), a)
      ensures IsRun(from, before, run + [a])
    {
      var more := run + [a];
      forall i | 0 <= i < |more| ensures FollowsAt(from, before, more, i) {
        assert i < |run| ==> FollowsAt(from, before, run, i);
        assert StopBefore(from, more, i) == StopBefore(from, run, i)
               && FilesBefore(before, more, i) == FilesBefore(before, run, i);
        assert more[i] == if i < |run| then run[i] else a;
      }
    }

    lemma {:induction false} DoneInRun(from: nat, before: Files, run: seq<Answer>, i: nat)
      requires IsRun(from, before, run) && i < |run|
      ensures run[i].out.Answered? && FrameDone(run[i].start, run[i].out, FilesBefore(before, run, i), run[i].files)
    {
      assert FollowsAt(from, before, run, i);
      assert FollowsIf(true, StopBefore(from, run, i), FilesBefore(before, run, i), run[i]);
    }

    /** A file that the frames after the first `i` spare is what it was after those. */
    lemma {:induction false} FileStaysThrough(from: nat, before: Files, run: seq<Answer>, i: nat, j: nat, path: Place)
      requires IsRun(from, before, run) && i <= j <= |run|
      requires forall m | i <= m < j :: Spares(run[m].start, path)
      ensures SameFile(FilesBefore(before, run, i), FilesBefore(before, run, j), path)
    {
      if i < j {
        FileStaysThrough(from, before, run, i, j - 1, path);
        StaysOnce(from, before, run, j - 1, path);
      }
    }

    lemma {:induction false} StaysOnce(from: nat, before: Files, run: seq<Answer>, i: nat, path: Place)
      requires IsRun(from, before, run) && i < |run| && Spares(run[i].start, path)
      ensures SameFile(FilesBefore(before, run, i), FilesBefore(before, run, i + 1), path)
    {
      DoneInRun(from, before, run, i);
      SparedFileStays(run[i].start, run[i].out, FilesBefore(before, run, i), run[i].files, path);
    }

    /** The frame is a GET of the path, with the right checksum. */
    ghost predicate Gets(start: nat, path: Place) {
      && start + 5 <= |input| && LenAt(start) <= MAX_PAYLOAD_BYTES && input[start] == CMD_GET
      && CrcRight(input[start..start + 5], start + 5, LenAt(start))
      && PathOnly(input[start + 5..start + 5 + LenAt(start)])
      && OnlyPath(input[start + 5..start + 5 + LenAt(start)]) == path
    }

    lemma {:induction false} GetsFile(start: nat, out: Outcome, before: Files, after: Files, path: Place)
      requires faultless && Gets(start, path) && FrameDone(start, out, before, after) && out.Answered?
      ensures out == Fetched(path, before)
    {
      assert FrameDoneIf(true, start, out, before, after);
      assert ServedIf(true, CMD_GET, input[start + 5..start + 5 + LenAt(start)], out, before, after);
    }

    /** The frame at `start` was an OK to a PUT: the path it names, and the data it carries. */
    ghost predicate Puts(start: nat, out: Outcome, path: Place, data: Bytes) {
      && start + 5 <= |input| && LenAt(start) <= MAX_PAYLOAD_BYTES && input[start] == CMD_PUT
      && out.Answered? && out.status == ST_OK
      && PathAt(start + 5, LenAt(start)) && NamedAt(start + 5, LenAt(start)) == path
      && start + 5 + LenAt(start) <= |input|
      && data == input[start + 7 + PathLenAt(start + 5)..start + 5 + LenAt(start)]
    }

    lemma {:induction false} PutsFile(start: nat, out: Outcome, before: Files, after: Files, path: Place, data: Bytes)
      requires Puts(start, out, path, data) && FrameDone(start, out, before, after)
      ensures path in after && after[path] == data && |data| <= MAX_PAYLOAD_BYTES
    {
      PutGuarantee(start, out, before, after);
    }

    /**
     * In every run on a disk that does not fail: what a PUT put in a file is what a later
     * GET of the same path gets, if the frames between neither put nor delete the file.
     */
    lemma {:induction false} PutThenGet(from: nat, before: Files, run: seq<Answer>, i: nat, j: nat, path: Place,
                                        data: Bytes)
      requires faultless && IsRun(from, before, run) && i < j < |run|
      requires Puts(run[i].start, run[i].out, path, data) && Gets(run[j].start, path)
      requires forall m | i < m < j :: Spares(run[m].start, path)
      ensures run[j].out == Answered(ST_OK, data)
    {
      DoneInRun(from, before, run, i);
      DoneInRun(from, before, run, j);
      PutsFile(run[i].start, run[i].out, FilesBefore(before, run, i), run[i].files, path, data);
      FileStaysThrough(from, before, run, i + 1, j, path);
      GetsFile(run[j].start, run[j].out, FilesBefore(before, run, j), run[j].files, path);
    }

    /** What has been heard and said so far. */
    ghost predicate Heard(from: nat, before: Files, said: Bytes, log: seq<Outcome>, run: seq<Answer>)
      reads this
    {
      && Valid() && AllAnswers(log) && output == said + Responses(step, log)
      && |run| == |log| && (forall i | 0 <= i < |log| :: run[i].out == log[i])
      && IsRun(from, before, run)
    }

    /** One turn of deploy_listener_task: the next frame is answered, or there is none. */
    method AnswerNext(log: seq<Outcome>, ghost from: nat, ghost before: Files, ghost said: Bytes,
                      ghost run: seq<Answer>)
        returns (more: bool, log': seq<Outcome>, ghost run': seq<Answer>)
      requires Heard(from, before, said, log, run)
      requires pos == StopBefore(from, run, |run|) && files == FilesBefore(before, run, |run|)
      modifies this`pos, this`files, this`output
      ensures Heard(from, before, said, log', run') && old(pos) <= pos
      ensures more ==>
                && pos > old(pos) && pos == StopBefore(from, run', |run'|)
                && files == FilesBefore(before, run', |run'|)
      ensures !more ==>
                pos == |input| && NoMore(StopBefore(from, run', |run'|), FilesBefore(before, run', |run'|), files)
    {
      more, log', run' := false, log, run;
      var found := ScanForMagic();
      if !found {
        return;
      }
      ghost var start, files0 := pos, files;
      var out := ProcessOneFrame();
      if out.Waiting? {
        return;
      }
      ghost var a := Answer(start, pos, out, files);
      ItFollows(StopBefore(from, run, |run|), files0, a);
      OneMoreAnswer(from, before, run, a);
      ResponsesAppend(step, log, out);
      Regroup(said, Responses(step, log), Response(step, out.status, out.payload));
      more, log', run' := true, log + [out], run + [a];
    }

    /**
     * deploy_listener_task, until the bytes run out: it answers one frame after the other,
     * each at the first magic after the one before, with one response for each, and stops
     * only when there is no magic or no whole frame any more.
     */
    method Listen() returns (log: seq<Outcome>, ghost run: seq<Answer>)
      requires Valid()
      modifies this`pos, this`files, this`output
      ensures Valid() && pos == |input|
      ensures AllAnswers(log) && output == old(output) + Responses(step, log)
      ensures |run| == |log| && forall i | 0 <= i < |log| :: run[i].out == log[i]
      ensures IsRun(old(pos), old(files), run)
      ensures NoMore(StopBefore(old(pos), run, |run|), FilesBefore(old(files), run, |run|), files)
    {
      log, run := [], [];
      var more := true;
      while more
        invariant Heard(old(pos), old(files), old(output), log, run)
        invariant more ==> pos == StopBefore(old(pos), run, |run|) && files == FilesBefore(old(files), run, |run|)
        invariant !more ==>
                    && pos == |input|
                    && NoMore(StopBefore(old(pos), run, |run|), FilesBefore(old(files), run, |run|), files)
        decreases |input| - pos, more
      {
        more, log, run := AnswerNext(log, old(pos), old(files), old(output), run);
      }
    }

    /** What is written for an outcome: one response for an answer, and nothing while bytes are missing. */
    ghost predicate Told(out: Outcome, before: Bytes, after: Bytes) {
      match out
      case Waiting => after == before
      case Answered(status, payload) => |payload| < 0x1_0000_0000 && after == before + Response(step, status, payload)
    }
  }

  /** A frame that was answered: where it starts, where the reader stopped, the answer, and the files after it. */
  datatype Answer = Answer(start: nat, stop: nat, out: Outcome, files: Files)

  ghost function StopBefore(from: nat, run: seq<Answer>, i: nat): nat
    requires i <= |run|
  {
    if i == 0 then from else run[i - 1].stop
  }

  ghost function FilesBefore(before: Files, run: seq<Answer>, i: nat): Files
    requires i <= |run|
  {
    if i == 0 then before else run[i - 1].files
  }

  /** The answer to PING. */
  const VERSION: Bytes := [
    68, 117, 116, 99, 104, 86, 77, 83, 32, 100, 101, 112, 108, 111, 121, 45, 112, 114, 111, 116, 111, 32, 118, 48, 46,
      49, 0]

  // ---- What the host reads ----

  ghost predicate AllAnswers(log: seq<Outcome>) {
    forall i | 0 <= i < |log| :: log[i].Answered? && |log[i].payload| < 0x1_0000_0000
  }

  /** The responses of a log, one after the other. */
  ghost function Responses(step: Step, log: seq<Outcome>): Bytes
    requires AllAnswers(log)
  {
    if log == [] then [] else Response(step, log[0].status, log[0].payload) + Responses(step, log[1..])
  }

  lemma {:induction false} ResponsesAppend(step: Step, log: seq<Outcome>, out: Outcome)
    requires AllAnswers(log) && out.Answered? && |out.payload| < 0x1_0000_0000
    ensures AllAnswers(log + [out])
    ensures Responses(step, log + [out]) == Responses(step, log) + Response(step, out.status, out.payload)
  {
    if log == [] {
      assert log + [out] == [out];
      assert Responses(step, [out]) == Response(step, out.status, out.payload) + Responses(step, []);
    } else {
      assert (log + [out])[0] == log[0] && (log + [out])[1..] == log[1..] + [out];
      ResponsesAppend(step, log[1..], out);
      Regroup(Response(step, log[0].status, log[0].payload), Responses(step, log[1..]),
        Response(step, out.status, out.payload));
    }
  }

  /** A host that reads one response after the other. */
  function HostReads(step: Step, b: Bytes): seq<Outcome>
    decreases |b|
  {
    match Received(step, b)
    case Waiting => []
    case Answered(status, payload) =>
      var used := 11 + |payload|;
      if used <= |b| then [Answered(status, payload)] + HostReads(step, b[used..]) else []
  }

  /** The host reads exactly the answers that were given, in order. */
  lemma {:induction false} HostReadsAll(step: Step, log: seq<Outcome>)
    requires AllAnswers(log)
    ensures HostReads(step, Responses(step, log)) == log
  {
    if log != [] {
      var first, rest := Response(step, log[0].status, log[0].payload), Responses(step, log[1..]);
      ResponseRoundTrip(step, log[0].status, log[0].payload, rest);
      assert |first| == 11 + |log[0].payload|;
      assert (first + rest)[|first|..] == rest;
      HostReadsAll(step, log[1..]);
    }
  }

  lemma {:induction false} Regroup(a: Bytes, b: Bytes, c: Bytes)
    ensures (a + b) + c == a + (b + c)
  {
  }

  lemma {:induction false} Slices(s: Bytes, i: nat, j: nat, k: nat)
    requires i <= j <= k <= |s|
    ensures s[i..j] + s[j..k] == s[i..k]
  {
  }

  lemma Inside(s: Bytes, i: nat, j: nat, a: nat, b: nat)
    requires i <= j <= |s| && a <= b <= j - i
    ensures s[i..j][a..b] == s[i + a..i + b]
  {
    assert |s[i..j][a..b]| == |s[i + a..i + b]|;
    assert forall k | 0 <= k < b - a :: s[i..j][a..b][k] == s[i + a..i + b][k];
  }

  /** The file with `data` written over what is at `at`. */
  function Patched(file: Bytes, at: nat, data: Bytes): (r: Bytes)
    requires at + |data| <= |file|
    ensures |r| == |file|
  {
    file[..at] + data + file[at + |data|..]
  }

  lemma {:induction false} PatchedAt(file: Bytes, at: nat, chunk: Bytes, written: nat, w: nat)
    requires at + |chunk| <= |file| && written + w <= |chunk| && file[at..at + written] == chunk[..written]
    ensures var after := Patched(file, at + written, chunk[written..][..w]);
            && after[..at] == file[..at]
            && after[at..at + written + w] == chunk[..written + w]
  {
    var after := Patched(file, at + written, chunk[written..][..w]);
    assert after[at..at + written] == file[at..at + written];
    assert after[at + written..at + written + w] == chunk[written..][..w];
    assert after[at..at + written + w] == after[at..at + written] + after[at + written..at + written + w];
    assert chunk[..written + w] == chunk[..written] + chunk[written..][..w];
  }
}
