// The spellings of one file in requests: what the paths of requests name, and two runs
// of the listener in which a file is reached under a second spelling.
module Spellings {
  import opened Options
  import opened Paths
  import opened FileNames
  import opened Deploy
  import opened Sessions

  // ---- Paths as bytes ----

  predicate IsByteChar(c: char) {
    0 < c as int < 256
  }

  predicate AreByteChars(s: string) {
    forall i | 0 <= i < |s| :: IsByteChar(s[i])
  }

  function BytesOf(s: string): (b: Bytes)
    requires AreByteChars(s)
  {
    seq(|s|, i requires 0 <= i < |s| => s[i] as int)
  }

  lemma {:induction false} CStringOf(s: string)
    requires AreByteChars(s)
    ensures |BytesOf(s)| == |s| && CString(BytesOf(s)) == s
  {
    if s != "" {
      assert forall i | 0 <= i < |s[1..]| :: s[1..][i] == s[i + 1];
      CStringOf(s[1..]);
      assert BytesOf(s)[1..] == BytesOf(s[1..]);
      assert BytesOf(s)[0] as char == s[0];
    }
  }

  lemma {:induction false} TextIsBytes(p: Path)
    requires Good(p)
    ensures AreByteChars(Text(p)) && AreByteChars(BracketText(p))
  {
    PathCharsAreBytes(p.device);
    PathCharsAreBytes(FilenameText(p));
    BytesJoin("[]", FilenameText(p));
    if p.directory.Some? {
      PathCharsAreBytes(p.directory.value);
      BytesJoin("[", p.directory.value);
      BytesJoin("[" + p.directory.value, "]");
      BytesJoin("[" + p.directory.value + "]", FilenameText(p));
    } else {
      BytesJoin("", FilenameText(p));
    }
    BytesJoin(p.device, ":");
    BytesJoin(p.device + ":", DirectoryText(p));
    BytesJoin(p.device + ":", "[]" + FilenameText(p));
  }

  lemma PathCharsAreBytes(s: string)
    requires AllPathChars(s) || AllDeviceChars(s)
    ensures AreByteChars(s)
  {
    forall i | 0 <= i < |s| ensures IsByteChar(s[i]) {
      assert IsPathChar(s[i]);
    }
  }

  lemma BytesJoin(a: string, b: string)
    requires AreByteChars(a) && AreByteChars(b)
    ensures AreByteChars(a + b)
  {
  }

  // ---- What requests name ----

  /** A request that spells a path which converts names what the conversion leads to. */
  lemma {:induction false} Names(s: Server, vms: string)
    requires s.Finds() && vms != "" && |vms| < MAX_PATH_BYTES && AreByteChars(vms) && Converts(vms, PATH_BUFFER)
    ensures NamesPath(BytesOf(vms)) && PosixPath(BytesOf(vms)) == Posix(vms).value
    ensures s.named(BytesOf(vms)) == FoldedPlace(s.fold, Posix(vms).value)
  {
    CStringOf(vms);
    var b := BytesOf(vms);
    assert NamesPathIf(true, b);
    assert forall open {:trigger NamesPathIf(open, b)} :: NamesPathIf(open, b);
    assert s.FindsIf(true);
  }

  ghost predicate OneToOne(fold: string -> string) {
    forall a, b :: fold(a) == fold(b) ==> a == b
  }

  lemma {:induction false} FoldedOnce(fold: string -> string, a: seq<string>, b: seq<string>)
    requires OneToOne(fold) && Folded(fold, a) == Folded(fold, b)
    ensures a == b
  {
    if a != [] && b != [] {
      assert Folded(fold, a)[0] == fold(a[0]) && Folded(fold, b)[0] == fold(b[0]);
      assert Folded(fold, a)[1..] == Folded(fold, a[1..]) && Folded(fold, b)[1..] == Folded(fold, b[1..]);
      FoldedOnce(fold, a[1..], b[1..]);
      assert a == [a[0]] + a[1..] && b == [b[0]] + b[1..];
    }
  }

  /**
   * Two requests name one file exactly when the normal forms of their POSIX paths agree,
   * on a disk that takes no two names for one.
   */
  lemma {:induction false} RequestsNameOneFile(s: Server, b: Bytes, c: Bytes)
    requires s.Finds() && NamesPath(b) && NamesPath(c)
    ensures Normal(PosixPath(b)) == Normal(PosixPath(c)) ==> s.named(b) == s.named(c)
    ensures OneToOne(s.fold) ==> (s.named(b) == s.named(c) <==> Normal(PosixPath(b)) == Normal(PosixPath(c)))
  {
    assert s.FindsIf(true);
    BeginsWithSlash(b);
    BeginsWithSlash(c);
    NormalExactly(PosixPath(b), PosixPath(c));
    SamePlace(s.fold, PosixPath(b), PosixPath(c));
  }

  lemma BeginsWithSlash(b: Bytes)
    requires NamesPath(b)
    ensures PosixPath(b)[0] == '/'
  {
    assert NamesPathIf(true, b);
    PosixBegins(CString(b));
  }

  lemma {:induction false} SamePlace(fold: string -> string, x: string, y: string)
    requires x != "" && y != ""
    ensures PlaceOf(x) == PlaceOf(y) ==> FoldedPlace(fold, x) == FoldedPlace(fold, y)
    ensures OneToOne(fold) && FoldedPlace(fold, x) == FoldedPlace(fold, y) ==> PlaceOf(x) == PlaceOf(y)
  {
    if OneToOne(fold) && FoldedPlace(fold, x) == FoldedPlace(fold, y) {
      FoldedOnce(fold, PlaceOf(x).names, PlaceOf(y).names);
    }
  }

  /** Requests that spell paths to a file as they print name one file exactly when the paths are the same. */
  lemma {:induction false} DifferentPathsNameDifferentFiles(s: Server, p: Path, q: Path)
    requires s.Finds() && OneToOne(s.fold)
    requires Good(p) && p.filename.Some? && |Text(p)| < MAX_PATH_BYTES
    requires Good(q) && q.filename.Some? && |Text(q)| < MAX_PATH_BYTES
    ensures AreByteChars(Text(p)) && AreByteChars(Text(q))
    ensures s.named(BytesOf(Text(p))) == s.named(BytesOf(Text(q))) <==> p == q
  {
    TextIsBytes(p);
    TextIsBytes(q);
    TextConverts(p);
    TextConverts(q);
    Names(s, Text(p));
    Names(s, Text(q));
    SamePlace(s.fold, Unix(p), Unix(q));
    DifferentFiles(p, q);
  }

  /** The path of a file, with empty brackets for the missing directory or without. */
  lemma {:induction false} BracketsNameTheFile(s: Server, p: Path)
    requires s.Finds() && Good(p) && p.directory.None? && p.filename.Some? && |BracketText(p)| < MAX_PATH_BYTES
    ensures AreByteChars(Text(p)) && AreByteChars(BracketText(p))
    ensures var b, c := BytesOf(Text(p)), BytesOf(BracketText(p));
            b != c && NamesPath(b) && NamesPath(c) && s.named(b) == s.named(c)
  {
    TextIsBytes(p);
    TextConverts(p);
    BracketsConvert(p);
    Names(s, Text(p));
    Names(s, BracketText(p));
    SamePlace(s.fold, Posix(Text(p)).value, Posix(BracketText(p)).value);
    CStringOf(Text(p));
    CStringOf(BracketText(p));
  }

  lemma {:induction false} TextConverts(p: Path)
    requires Good(p) && p.filename.Some? && |Text(p)| < MAX_PATH_BYTES
    ensures Converts(Text(p), PATH_BUFFER) && Posix(Text(p)) == Some(Unix(p))
  {
    GoodTextConverts(p);
    FileTextIsUnix(p);
  }

  lemma {:induction false} GoodTextConverts(p: Path)
    requires Good(p) && |Text(p)| < MAX_PATH_BYTES
    ensures Converts(Text(p), PATH_BUFFER)
  {
    ParsedExactly(Text(p), p);
    ParsedConverts(Text(p), p, PATH_BUFFER);
    AgreeOnText(p);
    UnixFits(p);
  }

  /** A request that spells a path as it prints names its device, and the components of its directory and its file. */
  lemma {:induction false} TextNames(s: Server, p: Path)
    requires s.Finds() && Good(p) && |Text(p)| < MAX_PATH_BYTES
    ensures AreByteChars(Text(p)) && NamesPath(BytesOf(Text(p)))
    ensures s.named(BytesOf(Text(p))) == Place(p.device, Folded(s.fold, NamesOf(p)))
  {
    TextIsBytes(p);
    GoodTextConverts(p);
    assert Text(p) != "";
    Names(s, Text(p));
    TextLeadsTo(p);
  }

  lemma {:induction false} BracketsConvert(p: Path)
    requires Good(p) && p.directory.None? && p.filename.Some? && |BracketText(p)| < MAX_PATH_BYTES
    ensures Converts(BracketText(p), PATH_BUFFER) && Posix(Text(p)).Some?
    ensures PlaceOf(Posix(BracketText(p)).value) == PlaceOf(Posix(Text(p)).value)
    ensures Text(p) != BracketText(p)
  {
    BracketsDoNotMatter(p);
    FileTextIsUnix(p);
    BracketPosixIs(p.device, FilenameText(p));
    NoDotBehindTwoSlashes(p);
    assert |BracketText(p)| == |Text(p)| + 2;
  }

  lemma {:induction false} NoDotBehindTwoSlashes(p: Path)
    requires Good(p) && p.filename.Some?
    ensures !HasDotSegment("/" + p.device + ("/" + PosixFile(FilenameText(p))))
  {
    var f, head := FilenameText(p), "/" + p.device + "//";
    GoodHasNoSlash(p);
    TwoSlashesFirst(p.device, f);
    forall k | 0 <= k < |head| ensures head[k] != '.' {
      assert 1 <= k <= |p.device| ==> head[k] == p.device[k - 1];
    }
    forall i: nat ensures !DotSegmentAt(head + f, i) {
      NoDotSegment(head, f, i);
    }
  }

  lemma TwoSlashesFirst(device: string, f: string)
    requires f != ""
    ensures "/" + device + ("/" + PosixFile(f)) == "/" + device + "//" + f
  {
  }

  // ---- A directory with a dot at its end ----

  /** The path of the directory of a file, with a dot before the closing bracket. */
  function DottedDirectory(p: Path): string
    requires p.directory.Some?
  {
    p.device + ":" + ("[" + (p.directory.value + ".") + "]" + "")
  }

  lemma {:induction false} DottedPosix(p: Path)
    requires Good(p) && p.directory.Some?
    ensures Posix(DottedDirectory(p)) == Some("/" + p.device + ("/" + Slashed(p.directory.value) + "/"))
  {
    var d := p.directory.value;
    assert AllPathChars(d + ".");
    PosixOf(p.device, "[" + (d + ".") + "]" + "");
    PosixRestOfDirectory(d + ".", "");
    SlashedDot(d);
  }

  lemma {:induction false} SlashedDot(d: string)
    ensures "/" + Slashed(d + ".") + PosixFile("") == "/" + Slashed(d) + "/"
  {
    assert Slashed(d + ".") == Slashed(d) + "/";
  }

  /** The dot gives a slash at the end, and no segment of dots. */
  lemma {:induction false} NoDotInDirectory(p: Path)
    requires Good(p) && p.directory.Some?
    ensures !HasDotSegment("/" + p.device + ("/" + Slashed(p.directory.value) + "/"))
  {
    var d := p.directory.value;
    var u := "/" + p.device + ("/" + Slashed(d) + "/");
    forall k | 0 <= k < |u| ensures u[k] != '.' {
      DotFree(p.device, Slashed(d), k);
    }
  }

  lemma DotFree(device: string, x: string, k: nat)
    requires AllDeviceChars(device) && (forall i | 0 <= i < |x| :: x[i] != '.')
    requires k < |"/" + device + ("/" + x + "/")|
    ensures ("/" + device + ("/" + x + "/"))[k] != '.'
  {
    var u := "/" + device + ("/" + x + "/");
    if 1 <= k <= |device| {
      assert u[k] == device[k - 1];
    } else if |device| + 2 <= k < |device| + 2 + |x| {
      assert u[k] == x[k - |device| - 2];
    }
  }

  /** The names on the way to a file are those of its directory, and its own. */
  lemma {:induction false} InItsDirectory(p: Path)
    requires Good(p) && p.directory.Some? && p.filename.Some?
    ensures Posix(Text(p)) == Some(Unix(p)) && Unix(p) != ""
    ensures Posix(DottedDirectory(p)).Some? && Posix(DottedDirectory(p)).value != ""
    ensures var d, f := PlaceOf(Posix(DottedDirectory(p)).value), PlaceOf(Unix(p));
            f.device == d.device && f.names == d.names + [p.filename.value]
  {
    GoodHasNoSlash(p);
    FileTextIsUnix(p);
    UnixInDirectory(p);
    DottedPosix(p);
    NextName(p.device, "/" + Slashed(p.directory.value), p.filename.value);
  }

  lemma UnixInDirectory(p: Path)
    requires Good(p) && p.directory.Some? && p.filename.Some?
    ensures Unix(p) == "/" + p.device + ("/" + Slashed(p.directory.value) + ("/" + p.filename.value))
  {
    GoodHasNoSlash(p);
    UnixBegins(p);
    SlashBetween("/" + Slashed(p.directory.value), Front(p), p.filename.value);
  }

  lemma SlashBetween(x: string, front: string, f: string)
    requires "/" + front == x + "/"
    ensures "/" + front + f == x + ("/" + f)
  {
  }

  lemma {:induction false} NextName(device: string, x: string, f: string)
    requires NoSlash(device) && IsName(f) && x != "" && x[0] == '/'
    ensures var d, u := PlaceOf("/" + device + (x + "/")), PlaceOf("/" + device + (x + ("/" + f)));
            u.device == d.device && u.names == d.names + [f]
  {
    PlaceOfParts("/" + device + (x + "/"), device, x + "/");
    PlaceOfParts("/" + device + (x + ("/" + f)), device, x + ("/" + f));
    SegmentsJoin(x, f);
    SegmentsJoin(x, "");
    assert x + ("/" + "") == x + "/";
    OneSegment(f);
  }

  lemma OneSegment(f: string)
    requires IsName(f)
    ensures Segments(f) == [f] && Segments("") == []
  {
    SpanIs(f, 0, |f|, NotSlash);
    assert f[..|f|] == f && f[|f|..] == "";
  }

  lemma {:induction false} FoldedJoin(fold: string -> string, a: seq<string>, b: seq<string>)
    ensures Folded(fold, a + b) == Folded(fold, a) + Folded(fold, b)
  {
    if a == [] {
      assert a + b == b;
    } else {
      assert (a + b)[1..] == a[1..] + b;
      FoldedJoin(fold, a[1..], b);
    }
  }

  /** A file is below its directory, with a dot at the end of that or without. */
  lemma {:induction false} DottedDirectoryIsAbove(s: Server, p: Path)
    requires s.Finds() && Good(p) && p.directory.Some? && p.filename.Some? && |Text(p)| < MAX_PATH_BYTES
    ensures AreByteChars(Text(p)) && AreByteChars(DottedDirectory(p))
    ensures var b, c := BytesOf(Text(p)), BytesOf(DottedDirectory(p));
            NamesPath(b) && NamesPath(c) && Under(s.named(c), s.named(b))
  {
    TextIsBytes(p);
    TextConverts(p);
    DottedConverts(p);
    InItsDirectory(p);
    Names(s, Text(p));
    Names(s, DottedDirectory(p));
    FoldedJoin(s.fold, PlaceOf(Posix(DottedDirectory(p)).value).names, [p.filename.value]);
  }

  lemma {:induction false} DottedConverts(p: Path)
    requires Good(p) && p.directory.Some? && p.filename.Some? && |Text(p)| < MAX_PATH_BYTES
    ensures AreByteChars(DottedDirectory(p)) && 0 < |DottedDirectory(p)| < MAX_PATH_BYTES
    ensures Converts(DottedDirectory(p), PATH_BUFFER)
  {
    DottedIsShort(p);
    DottedPosix(p);
    NoDotInDirectory(p);
    PosixIsShort(p.device, Slashed(p.directory.value));
  }

  lemma {:induction false} DottedIsShort(p: Path)
    requires Good(p) && p.directory.Some? && p.filename.Some? && |Text(p)| < MAX_PATH_BYTES
    ensures AreByteChars(DottedDirectory(p))
    ensures |p.device| + |p.directory.value| + 4 == |DottedDirectory(p)| < MAX_PATH_BYTES
  {
    var d := p.directory.value;
    LengthOf(p.device, "[" + d + "]" + p.filename.value);
    LengthOf(p.device, "[" + (d + ".") + "]" + "");
    PathCharsAreBytes(p.device);
    PathCharsAreBytes(d + ".");
    BytesJoin("[", d + ".");
    BytesJoin("[" + (d + "."), "]");
    BytesJoin("[" + (d + ".") + "]", "");
    BytesJoin(p.device, ":");
    BytesJoin(p.device + ":", "[" + (d + ".") + "]" + "");
  }

  lemma LengthOf(device: string, rest: string)
    ensures |device + ":" + rest| == |device| + 1 + |rest|
  {
  }

  lemma PosixIsShort(device: string, x: string)
    ensures |"/" + device + ("/" + x + "/")| == |device| + |x| + 3
  {
  }

  // ---- What a DELETE takes ----

  lemma {:induction false} FoldedLength(fold: string -> string, a: seq<string>)
    ensures |Folded(fold, a)| == |a|
  {
    if a != [] {
      FoldedLength(fold, a[1..]);
    }
  }

  lemma {:induction false} FoldedPrefix(fold: string -> string, a: seq<string>, b: seq<string>)
    requires OneToOne(fold)
    ensures Folded(fold, a) <= Folded(fold, b) <==> a <= b
  {
    FoldedLength(fold, a);
    FoldedLength(fold, b);
    if |a| <= |b| {
      var c := b[..|a|];
      FoldedJoin(fold, c, b[|a|..]);
      FoldedLength(fold, c);
      assert c + b[|a|..] == b;
      assert Folded(fold, b)[..|a|] == Folded(fold, c);
      assert a <= b <==> a == c;
      assert Folded(fold, a) <= Folded(fold, b) <==> Folded(fold, a) == Folded(fold, c);
      if Folded(fold, a) == Folded(fold, c) {
        FoldedOnce(fold, a, c);
      }
    }
  }

  /** After a PUT and a DELETE a GET finds the data, unless the path that was deleted is at or above the file. */
  lemma {:induction false} DeletedOrNot(s: Server, q: Path, d: Path, data: Bytes, files: Files)
    requires s.Finds() && OneToOne(s.fold) && Good(q) && q.filename.Some? && Good(d)
    requires |Text(q)| < MAX_PATH_BYTES && |Text(d)| < MAX_PATH_BYTES && |data| <= MAX_PAYLOAD_BYTES - 258
    ensures AreByteChars(Text(q)) && AreByteChars(Text(d))
    ensures var b, c := BytesOf(Text(q)), BytesOf(Text(d));
            var rs := [Put(b, data), Delete(c), Get(b)];
            var gone := q.device == d.device && NamesOf(d) <= NamesOf(q);
            && AllWellMade(rs)
            && Answers(s.named, rs, files)
               == [Answered(ST_OK, Le32(|data|)), Answered(ST_OK, []),
                   if gone then Answered(ST_ERR_FOPEN, []) else Answered(ST_OK, data)]
  {
    TextNames(s, q);
    TextNames(s, d);
    CStringOf(Text(q));
    FoldedPrefix(s.fold, NamesOf(d), NamesOf(q));
    ThreeAnswers(s.named, Put(BytesOf(Text(q)), data), Delete(BytesOf(Text(d))), Get(BytesOf(Text(q))), files);
  }

  /**
   * PUT of a file, DELETE of any path, and GET of the file: it is gone exactly when the
   * path is on its device and its names are the first ones of the file.
   */
  method PutDeleteGet(step: Step, fold: string -> string, files: Files, q: Path, d: Path, data: Bytes, input: Bytes)
      returns (log: seq<Outcome>)
    requires OneToOne(fold) && Good(q) && q.filename.Some? && Good(d)
    requires |Text(q)| < MAX_PATH_BYTES && |Text(d)| < MAX_PATH_BYTES && |data| <= MAX_PAYLOAD_BYTES - 258
    requires AreByteChars(Text(q)) && AreByteChars(Text(d))
    requires var rs := [Put(BytesOf(Text(q)), data), Delete(BytesOf(Text(d))), Get(BytesOf(Text(q)))];
             AllWellMade(rs) && input == Frames(step, rs)
    ensures var gone := q.device == d.device && NamesOf(d) <= NamesOf(q);
            log == [Answered(ST_OK, Le32(|data|)), Answered(ST_OK, []),
                    if gone then Answered(ST_ERR_FOPEN, []) else Answered(ST_OK, data)]
  {
    var s := new Server(step, input, {}, true, {}, fold, files);
    DeletedOrNot(s, q, d, data, files);
    assert input[0..] == input;
    log := Serve(s, [Put(BytesOf(Text(q)), data), Delete(BytesOf(Text(d))), Get(BytesOf(Text(q)))]);
  }

  // ---- Two runs ----

  lemma {:induction false} ThreeAnswers(named: Naming, q: Request, r: Request, t: Request, files: Files)
    requires WellMade(q) && WellMade(r) && WellMade(t)
    ensures var after := After(named, q, files);
            Answers(named, [q, r, t], files)
            == [AnswerTo(named, q, files), AnswerTo(named, r, after), AnswerTo(named, t, After(named, r, after))]
  {
    assert [q, r, t][1..] == [r, t] && [r, t][1..] == [t] && [t][1..] == [];
    var after := After(named, q, files);
    assert Answers(named, [t], After(named, r, after)) == [AnswerTo(named, t, After(named, r, after))];
    assert Answers(named, [r, t], after) == [AnswerTo(named, r, after)] + Answers(named, [t], After(named, r, after));
  }

  /**
   * A second PUT under another spelling of the path replaces the first: a GET under the
   * first spelling gets its data.
   */
  lemma {:induction false} SecondPutIsRead(named: Naming, b: Bytes, c: Bytes, first: Bytes, second: Bytes, files: Files)
    requires NamesPath(b) && NamesPath(c) && named(b) == named(c)
    requires 2 + |b| + |first| <= MAX_PAYLOAD_BYTES && 2 + |c| + |second| <= MAX_PAYLOAD_BYTES
    ensures var rs := [Put(b, first), Put(c, second), Get(b)];
            && AllWellMade(rs)
            && Answers(named, rs, files)
               == [Answered(ST_OK, Le32(|first|)), Answered(ST_OK, Le32(|second|)), Answered(ST_OK, second)]
  {
    var rs := [Put(b, first), Put(c, second), Get(b)];
    ThreeAnswers(named, Put(b, first), Put(c, second), Get(b), files);
  }

  /** After a DELETE of something above a file, a GET finds no file. */
  lemma {:induction false} DeletedIsNotRead(named: Naming, b: Bytes, c: Bytes, data: Bytes, files: Files)
    requires NamesPath(b) && NamesPath(c) && Under(named(c), named(b)) && 2 + |b| + |data| <= MAX_PAYLOAD_BYTES
    ensures var rs := [Put(b, data), Delete(c), Get(b)];
            && AllWellMade(rs)
            && Answers(named, rs, files)
               == [Answered(ST_OK, Le32(|data|)), Answered(ST_OK, []), Answered(ST_ERR_FOPEN, [])]
  {
    var rs := [Put(b, data), Delete(c), Get(b)];
    ThreeAnswers(named, Put(b, data), Delete(c), Get(b), files);
  }

  /**
   * PUT SD0:f, PUT SD0:[]f, GET SD0:f, and so for every file without a directory: the
   * GET gets the data of the second PUT.
   */
  method PutTwice(step: Step, fold: string -> string, files: Files, p: Path, first: Bytes, second: Bytes, input: Bytes)
      returns (log: seq<Outcome>)
    requires Good(p) && p.directory.None? && p.filename.Some? && |BracketText(p)| < MAX_PATH_BYTES
    requires |first| <= MAX_PAYLOAD_BYTES - 258 && |second| <= MAX_PAYLOAD_BYTES - 258
    requires AreByteChars(Text(p)) && AreByteChars(BracketText(p))
    requires var rs := [Put(BytesOf(Text(p)), first), Put(BytesOf(BracketText(p)), second), Get(BytesOf(Text(p)))];
             AllWellMade(rs) && input == Frames(step, rs)
    ensures log == [Answered(ST_OK, Le32(|first|)), Answered(ST_OK, Le32(|second|)), Answered(ST_OK, second)]
  {
    var s := new Server(step, input, {}, true, {}, fold, files);
    ghost var b, c := BytesOf(Text(p)), BytesOf(BracketText(p));
    BracketsNameTheFile(s, p);
    SecondPutIsRead(s.named, b, c, first, second, files);
    assert input[0..] == input;
    log := Serve(s, [Put(b, first), Put(c, second), Get(b)]);
  }

  /**
   * PUT SD0:[a]f, DELETE SD0:[a.], GET SD0:[a]f, and so for every file in a directory:
   * the file is gone.
   */
  method DeleteAbove(step: Step, fold: string -> string, files: Files, p: Path, data: Bytes, input: Bytes)
      returns (log: seq<Outcome>)
    requires Good(p) && p.directory.Some? && p.filename.Some? && |Text(p)| < MAX_PATH_BYTES
    requires |data| <= MAX_PAYLOAD_BYTES - 258
    requires AreByteChars(Text(p)) && AreByteChars(DottedDirectory(p))
    requires var rs := [Put(BytesOf(Text(p)), data), Delete(BytesOf(DottedDirectory(p))), Get(BytesOf(Text(p)))];
             AllWellMade(rs) && input == Frames(step, rs)
    ensures log == [Answered(ST_OK, Le32(|data|)), Answered(ST_OK, []), Answered(ST_ERR_FOPEN, [])]
  {
    var s := new Server(step, input, {}, true, {}, fold, files);
    ghost var b, c := BytesOf(Text(p)), BytesOf(DottedDirectory(p));
    DottedDirectoryIsAbove(s, p);
    DeletedIsNotRead(s.named, b, c, data, files);
    assert input[0..] == input;
    log := Serve(s, [Put(b, data), Delete(c), Get(b)]);
  }
}
