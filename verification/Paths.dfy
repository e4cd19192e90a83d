// Device paths DEVICE:[DIR.SUBDIR]FILENAME.EXT: parsing, the two conversions to a
// Unix path, and taking a path apart and joining it again.
//
// A string stands for a C string, so it holds no NUL.
module Paths {
  import opened Options

  datatype Path = Path(device: string, directory: Option<string>, filename: Option<string>)

  datatype Fault =
    | EmptyPath | NoDevice | EmptyDevice | InvalidDeviceChar
    | UnclosedDirectory | InvalidDirChar | InvalidFileChar | Traversal

  datatype Result = Ok(path: Path) | Err(fault: Fault)

  predicate IsDeviceChar(c: char) {
    || 'A' <= c <= 'Z' || 'a' <= c <= 'z' || '0' <= c <= '9'
    || c == '_' || c == '-' || c == '$'
  }

  predicate IsPathChar(c: char) {
    IsDeviceChar(c) || c == '.'
  }

  predicate AllDeviceChars(s: string) {
    forall i | 0 <= i < |s| :: IsDeviceChar(s[i])
  }

  predicate AllPathChars(s: string) {
    forall i | 0 <= i < |s| :: IsPathChar(s[i])
  }

  // ---- What a path is ----

  /** An empty component ends at index `i`: before a dot or the end, after a dot or the start. */
  predicate EmptyComponentAt(d: string, i: int) {
    0 <= i <= |d| && (i == |d| || d[i] == '.') && (i == 0 || d[i - 1] == '.')
  }

  predicate HasEmptyComponent(d: string) {
    exists i | 0 <= i <= |d| :: EmptyComponentAt(d, i)
  }

  predicate AllDots(s: string) {
    s != "" && forall i | 0 <= i < |s| :: s[i] == '.'
  }

  predicate GoodDirectory(d: string) {
    AllPathChars(d) && !HasEmptyComponent(d)
  }

  predicate GoodFilename(f: string) {
    f != "" && AllPathChars(f) && !AllDots(f)
  }

  predicate Good(p: Path) {
    && p.device != "" && AllDeviceChars(p.device)
    && (p.directory.Some? ==> GoodDirectory(p.directory.value))
    && (p.filename.Some? ==> GoodFilename(p.filename.value))
  }

  function FilenameText(p: Path): string {
    if p.filename.Some? then p.filename.value else ""
  }

  function DirectoryText(p: Path): string {
    (if p.directory.Some? then "[" + p.directory.value + "]" else "") + FilenameText(p)
  }

  /** The text of a path. */
  function Text(p: Path): string {
    p.device + ":" + DirectoryText(p)
  }

  /** The same with an empty pair of brackets for the missing directory. */
  function BracketText(p: Path): string {
    p.device + ":" + ("[]" + FilenameText(p))
  }

  // ---- parse_path ----

  /** The first index from `i` on whose character fails the test, or the length. */
  function Span(s: string, i: nat, ok: char -> bool): (j: nat)
    requires i <= |s|
    ensures i <= j <= |s|
    ensures forall k | i <= k < j :: ok(s[k])
    ensures j < |s| ==> !ok(s[j])
    decreases |s| - i
  {
    if i < |s| && ok(s[i]) then Span(s, i + 1, ok) else i
  }

  function Parsed(s: string): Result {
    if s == "" then Err(EmptyPath) else
    var i := Span(s, 0, IsDeviceChar);
    if i == |s| then Err(NoDevice)
    else if s[i] != ':' then Err(InvalidDeviceChar)
    else if i == 0 then Err(EmptyDevice)
    else ParsedDirectory(s[..i], s[i + 1..])
  }

  function ParsedDirectory(device: string, t: string): Result {
    if t == "" || t[0] != '[' then ParsedFilename(device, None, t) else
    var j := Span(t, 1, IsPathChar);
    if j == |t| then Err(UnclosedDirectory)
    else if t[j] != ']' then Err(InvalidDirChar)
    else if j == 1 then ParsedFilename(device, None, t[2..])
    else if HasEmptyComponent(t[1..j]) then Err(Traversal)
    else ParsedFilename(device, Some(t[1..j]), t[j + 1..])
  }

  function ParsedFilename(device: string, directory: Option<string>, f: string): Result {
    if f == "" then Ok(Path(device, directory, None))
    else if !AllPathChars(f) then Err(InvalidFileChar)
    else if AllDots(f) then Err(Traversal)
    else Ok(Path(device, directory, Some(f)))
  }

  /** Where a text goes wrong before its colon. */
  lemma {:induction false} DeviceFaults(s: string)
    ensures Parsed(s) == Err(EmptyPath) <==> s == ""
    ensures Parsed(s) == Err(NoDevice) <==> s != "" && AllDeviceChars(s)
    ensures Parsed(s) == Err(InvalidDeviceChar) <==>
              exists i :: 0 <= i < |s| && AllDeviceChars(s[..i]) && !IsDeviceChar(s[i]) && s[i] != ':'
    ensures Parsed(s) == Err(EmptyDevice) <==> s != "" && s[0] == ':'
  {
    if s != "" {
      var i := Span(s, 0, IsDeviceChar);
      assert AllDeviceChars(s[..i]);
      forall j | 0 <= j < |s| && AllDeviceChars(s[..j]) && !IsDeviceChar(s[j]) ensures j == i {
        SpanIs(s, 0, j, IsDeviceChar) by {
          assert forall k | 0 <= k < j :: s[k] == s[..j][k];
        }
      }
      RestFaults(s[..i], if i < |s| then s[i + 1..] else "");
    }
  }

  /** And where behind the device, in its directory or its file. */
  lemma {:induction false} RestFaults(device: string, t: string)
    ensures var r := ParsedDirectory(device, t);
            && (r == Err(UnclosedDirectory) <==> t != "" && t[0] == '[' && AllPathChars(t[1..]))
            && (r == Err(InvalidDirChar) <==>
                  exists j :: 1 <= j < |t| && t[0] == '[' && AllPathChars(t[1..j]) && !IsPathChar(t[j]) && t[j] != ']')
            && (r.Err? ==> r.fault in {UnclosedDirectory, InvalidDirChar, InvalidFileChar, Traversal})
  {
    if t != "" && t[0] == '[' {
      var j := Span(t, 1, IsPathChar);
      assert AllPathChars(t[1..j]);
      assert AllPathChars(t[1..]) ==> forall k | 1 <= k < |t| :: t[k] == t[1..][k - 1];
      forall i | 1 <= i < |t| && AllPathChars(t[1..i]) && !IsPathChar(t[i]) ensures i == j {
        SpanIs(t, 1, i, IsPathChar) by {
          assert forall k | 1 <= k < i :: t[k] == t[1..i][k - 1];
        }
      }
    }
  }

  /** directory_has_bad_component */
  method DirectoryHasBadComponent(dir: string) returns (bad: bool)
    ensures bad == HasEmptyComponent(dir)
  {
    var compStart := 0;
    for i := 0 to |dir| + 1
      invariant 0 <= compStart <= i
      invariant compStart <= |dir| ==> compStart == 0 || dir[compStart - 1] == '.'
      invariant forall k | compStart <= k < i :: k < |dir| && dir[k] != '.'
      invariant forall k | 0 <= k < i :: !EmptyComponentAt(dir, k)
    {
      if i == |dir| || dir[i] == '.' {
        var compLen := i - compStart;
        if compLen == 0 || (compLen == 1 && dir[compStart] == '.') {
          assert EmptyComponentAt(dir, i);
          return true;
        }
        compStart := i + 1;
      }
    }
    bad := false;
  }

  /** is_all_dots */
  method IsAllDots(s: string) returns (all: bool)
    ensures all == AllDots(s)
  {
    for i := 0 to |s|
      invariant forall k | 0 <= k < i :: s[k] == '.'
    {
      if s[i] != '.' {
        return false;
      }
    }
    all := |s| > 0;
  }

  lemma {:induction false} SpanIs(s: string, i: nat, j: nat, ok: char -> bool)
    requires i <= j <= |s| && (forall k | i <= k < j :: ok(s[k])) && (j < |s| ==> !ok(s[j]))
    ensures Span(s, i, ok) == j
  {
  }

  method ParsePath(path: string) returns (result: Result)
    ensures result == Parsed(path)
  {
    if path == "" {
      return Err(EmptyPath);
    }
    var p := 0;
    while p < |path| && path[p] != ':'
      invariant p <= |path| && forall k | 0 <= k < p :: IsDeviceChar(path[k])
    {
      if !IsDeviceChar(path[p]) {
        SpanIs(path, 0, p, IsDeviceChar);
        return Err(InvalidDeviceChar);
      }
      p := p + 1;
    }
    SpanIs(path, 0, p, IsDeviceChar);
    if p == |path| {
      return Err(NoDevice);
    }
    if p == 0 {
      return Err(EmptyDevice);
    }
    result := ParseDirectory(path[..p], path[p + 1..]);
  }

  method ParseDirectory(device: string, t: string) returns (result: Result)
    ensures result == ParsedDirectory(device, t)
  {
    var p, directory := 0, None;
    if t != "" && t[0] == '[' {
      p := 1;
      while p < |t| && t[p] != ']'
        invariant 1 <= p <= |t| && forall k | 1 <= k < p :: IsPathChar(t[k])
      {
        if !IsPathChar(t[p]) {
          SpanIs(t, 1, p, IsPathChar);
          return Err(InvalidDirChar);
        }
        p := p + 1;
      }
      SpanIs(t, 1, p, IsPathChar);
      if p == |t| {
        return Err(UnclosedDirectory);
      }
      if p > 1 {
        directory := Some(t[1..p]);
        var bad := DirectoryHasBadComponent(t[1..p]);
        if bad {
          return Err(Traversal);
        }
      }
      p := p + 1;
    }
    assert p == 0 ==> t[p..] == t;
    result := ParseFilename(device, directory, t[p..]);
  }

  method ParseFilename(device: string, directory: Option<string>, f: string) returns (result: Result)
    ensures result == ParsedFilename(device, directory, f)
  {
    if f == "" {
      return Ok(Path(device, directory, None));
    }
    for p := 0 to |f|
      invariant forall k | 0 <= k < p :: IsPathChar(f[k])
    {
      if !IsPathChar(f[p]) {
        return Err(InvalidFileChar);
      }
    }
    var dots := IsAllDots(f);
    result := if dots then Err(Traversal) else Ok(Path(device, directory, Some(f)));
  }

  // ---- What parsing means ----

  /** Parsing gives exactly the good path whose text was parsed; a pair of empty brackets counts as no directory. */
  lemma {:induction false} ParsedExactly(s: string, p: Path)
    ensures Parsed(s) == Ok(p) <==> Good(p) && (s == Text(p) || (p.directory.None? && s == BracketText(p)))
  {
    if Parsed(s) == Ok(p) {
      ParsedIsGood(s, p);
    }
    if Good(p) && s == Text(p) {
      TextParses(p);
    }
    if Good(p) && p.directory.None? && s == BracketText(p) {
      BracketTextParses(p);
    }
  }

  lemma {:induction false} ParsedIsGood(s: string, p: Path)
    requires Parsed(s) == Ok(p)
    ensures Good(p) && (s == Text(p) || (p.directory.None? && s == BracketText(p)))
  {
    var i := Span(s, 0, IsDeviceChar);
    var t := s[i + 1..];
    assert s == s[..i] + ":" + t;
    DirectoryIsGood(s[..i], t, p);
  }

  lemma {:induction false} DirectoryIsGood(device: string, t: string, p: Path)
    requires ParsedDirectory(device, t) == Ok(p)
    ensures p.device == device && (p.directory.Some? ==> GoodDirectory(p.directory.value))
    ensures p.filename.Some? ==> GoodFilename(p.filename.value)
    ensures t == DirectoryText(p) || (p.directory.None? && t == "[]" + FilenameText(p))
  {
    if t != "" && t[0] == '[' {
      var j := Span(t, 1, IsPathChar);
      assert t == "[" + t[1..j] + "]" + t[j + 1..];
    }
  }

  lemma {:induction false} DeviceSpan(p: Path, t: string)
    requires p.device != "" && AllDeviceChars(p.device)
    ensures Parsed(p.device + ":" + t) == ParsedDirectory(p.device, t)
  {
    var s := p.device + ":" + t;
    SpanIs(s, 0, |p.device|, IsDeviceChar);
    assert s[..|p.device|] == p.device && s[|p.device| + 1..] == t;
  }

  lemma {:induction false} DirectorySpan(device: string, d: string, f: string)
    requires GoodDirectory(d)
    ensures ParsedDirectory(device, "[" + d + "]" + f) == ParsedFilename(device, Some(d), f)
  {
    var t := "[" + d + "]" + f;
    assert forall k | 1 <= k < 1 + |d| :: t[k] == d[k - 1];
    SpanIs(t, 1, 1 + |d|, IsPathChar);
    assert t[1..1 + |d|] == d && t[2 + |d|..] == f;
    assert d == "" ==> EmptyComponentAt(d, 0);
  }

  lemma {:induction false} TextParses(p: Path)
    requires Good(p)
    ensures Parsed(Text(p)) == Ok(p)
  {
    DeviceSpan(p, DirectoryText(p));
    DirectoryParses(p);
  }

  lemma {:induction false} DirectoryParses(p: Path)
    requires Good(p)
    ensures ParsedDirectory(p.device, DirectoryText(p)) == Ok(p)
  {
    var f := FilenameText(p);
    if p.directory.Some? {
      DirectorySpan(p.device, p.directory.value, f);
    } else {
      assert DirectoryText(p) == f;
      assert f != "" ==> IsPathChar(f[0]);
    }
  }

  lemma {:induction false} BracketTextParses(p: Path)
    requires Good(p) && p.directory.None?
    ensures Parsed(BracketText(p)) == Ok(p)
  {
    var f := FilenameText(p);
    var t := "[]" + f;
    assert BracketText(p) == p.device + ":" + t;
    DeviceSpan(p, t);
    SpanIs(t, 1, 1, IsPathChar);
    assert t[2..] == f;
  }

  // ---- path_to_unix ----

  function Slashed(s: string): (r: string)
    ensures |r| == |s|
  {
    seq(|s|, i requires 0 <= i < |s| => if s[i] == '.' then '/' else s[i])
  }

  /** The Unix form of a parsed path. */
  function Unix(p: Path): string {
    "/" + p.device + "/"
    + (if p.directory.Some? && p.directory.value != "" then Slashed(p.directory.value) + "/" else "")
    + FilenameText(p)
  }

  /** path_to_unix: fills a buffer of three more bytes than the text that was parsed. */
  method PathToUnix(p: Path, len: nat) returns (unix: string)
    requires len == |Text(p)| || (p.directory.None? && len == |BracketText(p)|)
    ensures unix == Unix(p)
  {
    var buffer := new char[len + 3];
    var o := CopySlash(buffer, 0);
    o := CopyIn(buffer, o, p.device, false);
    o := CopySlash(buffer, o);
    assert buffer[..o] == "/" + p.device + "/";
    if p.directory.Some? && p.directory.value != "" {
      o := CopyDirectory(buffer, o, p.directory.value);
    }
    o := CopyIn(buffer, o, FilenameText(p), false);
    unix := buffer[..o];
    buffer[o] := '\0'; // the end marker
  }

  method CopySlash(buffer: array<char>, at: nat) returns (o: nat)
    requires at < buffer.Length
    modifies buffer
    ensures o == at + 1 && buffer[..o] == old(buffer[..at]) + "/"
  {
    buffer[at] := '/';
    o := at + 1;
  }

  method CopyDirectory(buffer: array<char>, at: nat, d: string) returns (o: nat)
    requires at + |d| < buffer.Length
    modifies buffer
    ensures o == at + |d| + 1 && buffer[..o] == old(buffer[..at]) + (Slashed(d) + "/")
  {
    o := CopyIn(buffer, at, d, true);
    o := CopySlash(buffer, o);
    Regroup(old(buffer[..at]), Slashed(d), "/");
  }

  /** A piece of a path, with the dots of a directory turned into slashes. */
  function Piece(s: string, dots: bool): string {
    if dots then Slashed(s) else s
  }

  /** Copies a piece to the place where the text so far ends. */
  method CopyIn(buffer: array<char>, at: nat, s: string, dots: bool) returns (o: nat)
    requires at + |s| <= buffer.Length
    modifies buffer
    ensures o == at + |s| && buffer[..o] == old(buffer[..at]) + Piece(s, dots)
  {
    for i := 0 to |s|
      invariant buffer[..at + i] == old(buffer[..at]) + Piece(s, dots)[..i]
    {
      buffer[at + i] := if dots && s[i] == '.' then '/' else s[i];
      assert Piece(s, dots)[..i + 1] == Piece(s, dots)[..i] + [Piece(s, dots)[i]];
    }
    assert Piece(s, dots)[..|s|] == Piece(s, dots);
    o := at + |s|;
  }

  /** A Unix path with its end marker fits in three bytes more than the path it is made of. */
  lemma {:induction false} UnixFits(p: Path)
    ensures |Unix(p)| + 1 <= |Text(p)| + 3
    ensures p.directory.None? ==> |Unix(p)| + 1 == |Text(p)| + 2
  {
  }

  predicate NoSlash(s: string) {
    forall i | 0 <= i < |s| :: s[i] != '/'
  }

  lemma {:induction false} GoodHasNoSlash(p: Path)
    requires Good(p)
    ensures NoSlash(p.device) && NoSlash(FilenameText(p))
    ensures p.directory.Some? ==> NoSlash(p.directory.value) && p.directory.value != ""
  {
    if p.directory.Some? && p.directory.value == "" {
      assert EmptyComponentAt(p.directory.value, 0);
    }
  }

  /** Different good paths have different Unix forms. */
  lemma {:induction false} UnixIsInjective(p: Path, q: Path)
    requires Good(p) && Good(q) && Unix(p) == Unix(q)
    ensures p == q
  {
    GoodHasNoSlash(p);
    GoodHasNoSlash(q);
    UnixParts(p);
    UnixParts(q);
    FirstSlash(p.device, Tail(p), q.device, Tail(q));
    LastSlash(Front(p), FilenameText(p), Front(q), FilenameText(q));
    SameFront(p, q);
  }

  function Front(p: Path): string {
    if p.directory.Some? && p.directory.value != "" then Slashed(p.directory.value) + "/" else ""
  }

  function Tail(p: Path): string {
    Front(p) + FilenameText(p)
  }

  lemma {:induction false} UnixParts(p: Path)
    ensures Unix(p)[0] == '/' && Unix(p)[1..] == p.device + "/" + Tail(p)
    ensures Front(p) == "" || Front(p)[|Front(p)| - 1] == '/'
  {
  }

  lemma {:induction false} SameFront(p: Path, q: Path)
    requires Good(p) && Good(q) && Front(p) == Front(q)
    ensures p.directory == q.directory
  {
    GoodHasNoSlash(p);
    GoodHasNoSlash(q);
    if p.directory.Some? && q.directory.Some? {
      var d, e := p.directory.value, q.directory.value;
      assert Front(p)[..|d|] == Slashed(d) && Front(q)[..|e|] == Slashed(e);
      SlashedIsInjective(d, e);
    }
  }

  lemma {:induction false} FirstSlash(a: string, s: string, b: string, t: string)
    requires NoSlash(a) && NoSlash(b) && a + "/" + s == b + "/" + t
    ensures a == b && s == t
  {
    var u := a + "/" + s;
    assert u[|a|] == '/' && u[|b|] == '/';
    assert forall i | 0 <= i < |a| :: u[i] == a[i];
    assert forall i | 0 <= i < |b| :: u[i] == b[i];
    assert |a| == |b|;
    assert a == u[..|a|] && b == u[..|b|] && s == u[|a| + 1..] && t == u[|b| + 1..];
  }

  lemma {:induction false} LastSlash(a: string, s: string, b: string, t: string)
    requires NoSlash(s) && NoSlash(t) && a + s == b + t
    requires a == "" || a[|a| - 1] == '/'
    requires b == "" || b[|b| - 1] == '/'
    ensures a == b && s == t
  {
    var u := a + s;
    assert forall i | 0 <= i < |s| :: u[|a| + i] == s[i];
    assert forall i | 0 <= i < |t| :: u[|b| + i] == t[i];
    assert a == "" || u[|a| - 1] == '/';
    assert b == "" || u[|b| - 1] == '/';
    NoLonger(u, |a|, |b|);
    NoLonger(u, |b|, |a|);
    assert a == u[..|a|] && b == u[..|b|] && s == u[|a|..] && t == u[|b|..];
  }

  lemma {:induction false} NoLonger(u: string, a: nat, b: nat)
    requires a <= |u| && b <= |u| && (b == 0 || u[b - 1] == '/') && forall i | a <= i < |u| :: u[i] != '/'
    ensures b <= a
  {
  }

  lemma {:induction false} SlashedIsInjective(d: string, e: string)
    requires NoSlash(d) && NoSlash(e) && Slashed(d) == Slashed(e)
    ensures d == e
  {
    assert |d| == |e|;
    forall i | 0 <= i < |d| ensures d[i] == e[i] {
      assert Slashed(d)[i] == Slashed(e)[i];
    }
  }

  // ---- path_dirname, path_basename, path_concat ----

  function Dirname(s: string): Option<string> {
    match Parsed(s)
    case Ok(p) => Some(p.device + ":" + if p.directory.Some? then "[" + p.directory.value + "]" else "")
    case Err(_) => None
  }

  function Basename(s: string): Option<string> {
    match Parsed(s)
    case Ok(p) => p.filename
    case Err(_) => None
  }

  /** The directory and file that path_concat appends. */
  datatype Relative = Relative(directory: Option<string>, filename: Option<string>)

  function Named(f: string): Option<string> {
    if f == "" then None else Some(f)
  }

  /** What can be appended: a file, or a bracketed directory with or without a file. */
  predicate Appends(s: string, r: Relative) {
    || (s != "" && AllPathChars(s) && r == Relative(None, Some(s)))
    || exists i | 1 <= i < |s| :: s[0] == '[' && s[i] == ']' && AllPathChars(s[1..i]) && AllPathChars(s[i + 1..])
                                  && r == Relative(Named(s[1..i]), Named(s[i + 1..]))
  }

  function JoinedDirectory(d: Option<string>, e: Option<string>): Option<string> {
    if d.Some? && e.Some? then Some(d.value + "." + e.value) else if d.Some? then d else e
  }

  function Joined(base: Path, r: Relative): Path {
    Path(base.device, JoinedDirectory(base.directory, r.directory), r.filename)
  }

  /** path_concat: the text of the joined path, if the base is a directory and the rest can be appended. */
  method PathConcat(basePath: string, appendPath: string) returns (result: Option<string>)
    ensures result.Some? <==>
              Parsed(basePath).Ok? && Parsed(basePath).path.filename.None? && exists r :: Appends(appendPath, r)
    ensures forall r | result.Some? && Appends(appendPath, r) :: result.value == Text(Joined(Parsed(basePath).path, r))
  {
    if basePath == "" || appendPath == "" {
      return None;
    }
    var base := ParsePath(basePath);
    if base.Err? || base.path.filename.Some? {
      return None;
    }
    var r := ParseAppend(appendPath);
    if r.None? {
      return None;
    }
    var directory := JoinedDirectory(base.path.directory, r.value.directory);
    var file := if r.value.filename.Some? then r.value.filename.value else "";
    result := Some(base.path.device + ":" + ((if directory.Some? then "[" + directory.value + "]" else "") + file));
  }

  method ParseAppend(s: string) returns (result: Option<Relative>)
    ensures result.Some? <==> exists r :: Appends(s, r)
    ensures forall r | Appends(s, r) :: result == Some(r)
  {
    if s != "" && s[0] == '[' {
      var close := 1;
      while close < |s| && s[close] != ']'
        invariant 1 <= close <= |s| && forall k | 1 <= k < close :: s[k] != ']'
      {
        close := close + 1;
      }
      AppendsAt(s, close);
      if close == |s| {
        return None;
      }
      var ok := CheckPathChars(s[1..close]);
      if !ok {
        return None;
      }
      ok := CheckPathChars(s[close + 1..]);
      if !ok {
        return None;
      }
      var r := Relative(Named(s[1..close]), Named(s[close + 1..]));
      assert Appends(s, r);
      result := Some(r);
    } else {
      var ok := CheckPathChars(s);
      if ok && s != "" {
        assert Appends(s, Relative(None, Some(s)));
      }
      result := if ok && s != "" then Some(Relative(None, Some(s))) else None;
    }
  }

  /** Only the first closing bracket can end the directory. */
  lemma {:induction false} AppendsAt(s: string, close: nat)
    requires s != "" && s[0] == '[' && 1 <= close <= |s| && (forall k | 1 <= k < close :: s[k] != ']')
    requires close < |s| ==> s[close] == ']'
    ensures forall r | Appends(s, r) ::
              close < |s| && AllPathChars(s[1..close]) && AllPathChars(s[close + 1..])
              && r == Relative(Named(s[1..close]), Named(s[close + 1..]))
  {
    forall r | Appends(s, r)
      ensures close < |s| && AllPathChars(s[1..close]) && AllPathChars(s[close + 1..])
      ensures r == Relative(Named(s[1..close]), Named(s[close + 1..]))
    {
      var i :| 1 <= i < |s| && s[i] == ']' && AllPathChars(s[1..i]) && AllPathChars(s[i + 1..])
               && r == Relative(Named(s[1..i]), Named(s[i + 1..]));
      assert forall k | 1 <= k < i :: s[k] == s[1..i][k - 1];
      assert i == close;
    }
  }

  method CheckPathChars(s: string) returns (ok: bool)
    ensures ok == AllPathChars(s)
  {
    for p := 0 to |s|
      invariant forall k | 0 <= k < p :: IsPathChar(s[k])
    {
      if !IsPathChar(s[p]) {
        return false;
      }
    }
    ok := true;
  }

  /** Taking a path with a file apart and joining it again gives it back exactly when it has no empty brackets. */
  lemma {:induction false} ConcatOfParts(s: string, p: Path)
    requires Parsed(s) == Ok(p) && p.filename.Some?
    ensures Dirname(s).Some? && Basename(s).Some?
    ensures var base := Parsed(Dirname(s).value); base.Ok? && base.path.filename.None?
    ensures Appends(Basename(s).value, Relative(None, p.filename))
    ensures Text(Joined(Parsed(Dirname(s).value).path, Relative(None, p.filename))) == s <==> s != BracketText(p)
  {
    ParsedExactly(s, p);
    var base := Path(p.device, p.directory, None);
    assert Dirname(s).value == Text(base);
    ParsedExactly(Text(base), base);
    assert Joined(base, Relative(None, p.filename)) == p;
    assert |BracketText(p)| != |Text(p)| || p.directory.Some?;
    TextParses(p);
    if p.directory.Some? { NotBracketText(p); }
  }

  lemma {:induction false} NotBracketText(p: Path)
    requires Good(p) && p.directory.Some?
    ensures Text(p) != BracketText(p)
  {
    var i := |p.device| + 2;
    assert p.directory.value == "" ==> EmptyComponentAt(p.directory.value, 0);
    assert BracketText(p)[i] == ']';
    assert Text(p)[i] == p.directory.value[0];
  }

  /** Joined directories have an empty component exactly when one of them has. */
  lemma {:induction false} JoinedComponents(d: string, e: string)
    ensures HasEmptyComponent(d + "." + e) <==> HasEmptyComponent(d) || HasEmptyComponent(e)
  {
    var j := d + "." + e;
    forall i | 0 <= i <= |d| ensures EmptyComponentAt(j, i) <==> EmptyComponentAt(d, i) {
    }
    forall i | 0 <= i <= |e| ensures EmptyComponentAt(j, |d| + 1 + i) <==> EmptyComponentAt(e, i) {
    }
    if i :| 0 <= i <= |j| && EmptyComponentAt(j, i) {
      if i > |d| {
        assert EmptyComponentAt(j, |d| + 1 + (i - |d| - 1));
        assert EmptyComponentAt(e, i - |d| - 1);
      }
    }
  }

  /** A joined path is one again exactly when what was appended is good by itself. */
  lemma {:induction false} JoinedIsGood(base: Path, r: Relative)
    requires Good(base) && (r.directory.Some? ==> AllPathChars(r.directory.value))
    ensures Good(Joined(base, r)) <==>
              && (r.directory.Some? ==> GoodDirectory(r.directory.value))
              && (r.filename.Some? ==> GoodFilename(r.filename.value))
  {
    if base.directory.Some? && r.directory.Some? {
      JoinedComponents(base.directory.value, r.directory.value);
    }
  }

  /** The components of a directory: what is between its dots. */
  function Components(d: string): (r: seq<string>)
    ensures r != []
  {
    if d == "" then [""]
    else
      var rest := Components(d[1..]);
      if d[0] == '.' then [""] + rest else [[d[0]] + rest[0]] + rest[1..]
  }

  function DirectoryNames(d: Option<string>): seq<string> {
    if d.Some? then Components(d.value) else []
  }

  lemma {:induction false} ComponentsOfJoined(d: string, e: string)
    ensures Components(d + "." + e) == Components(d) + Components(e)
  {
    var j := d + "." + e;
    if d == "" {
      assert j[1..] == e;
    } else {
      assert j[1..] == d[1..] + "." + e;
      ComponentsOfJoined(d[1..], e);
    }
  }

  /** The directories of a joined path are those of the base, and behind them those appended. */
  lemma {:induction false} JoinedNames(base: Path, r: Relative)
    ensures DirectoryNames(Joined(base, r).directory)
            == DirectoryNames(base.directory) + DirectoryNames(r.directory)
    ensures Joined(base, r).device == base.device && Joined(base, r).filename == r.filename
  {
    if base.directory.Some? && r.directory.Some? {
      ComponentsOfJoined(base.directory.value, r.directory.value);
    }
  }

  /** Directories and a file behind a directory: the text is that of the directories in order, with a dot between. */
  method ConcatDirectories(device: string, d: string, e: string, f: string) returns (result: Option<string>)
    requires device != "" && AllDeviceChars(device) && GoodDirectory(d) && AllPathChars(e) && e != "" && AllPathChars(f)
    ensures result == Some(device + ":[" + d + "." + e + "]" + f)
  {
    var base, r := Path(device, Some(d), None), Relative(Some(e), Named(f));
    BaseAndRest(device, d, e, f);
    result := PathConcat(device + ":[" + d + "]", "[" + e + "]" + f);
    TextOfJoined(device, d, e, f);
  }

  lemma {:induction false} BaseAndRest(device: string, d: string, e: string, f: string)
    requires device != "" && AllDeviceChars(device) && GoodDirectory(d) && AllPathChars(e) && e != "" && AllPathChars(f)
    ensures Parsed(device + ":[" + d + "]") == Ok(Path(device, Some(d), None))
    ensures Appends("[" + e + "]" + f, Relative(Some(e), Named(f)))
  {
    var p := Path(device, Some(d), None);
    TextParses(p);
    TextOfDirectory(device, d);
    CanAppend(e, f);
  }

  lemma TextOfDirectory(device: string, d: string)
    ensures device + ":" + ("[" + d + "]" + "") == device + ":[" + d + "]"
  {
  }

  lemma {:induction false} CanAppend(e: string, f: string)
    requires AllPathChars(e) && e != "" && AllPathChars(f)
    ensures Appends("[" + e + "]" + f, Relative(Some(e), Named(f)))
  {
    var i, s := |e| + 1, "[" + e + "]" + f;
    assert s[0] == '[' && s[i] == ']' && s[1..i] == e && s[i + 1..] == f;
  }

  lemma {:induction false} TextOfJoined(device: string, d: string, e: string, f: string)
    ensures Text(Joined(Path(device, Some(d), None), Relative(Some(e), Named(f))))
            == device + ":[" + d + "." + e + "]" + f
  {
  }

  /** A path cut at a dot of its directory, and joined again. */
  method CutAndJoin(p: Path, i: nat) returns (result: Option<string>)
    requires Good(p) && p.directory.Some? && i < |p.directory.value| && p.directory.value[i] == '.'
    ensures result == Some(Text(p))
  {
    var d, e := p.directory.value[..i], p.directory.value[i + 1..];
    assert p.directory.value == d + "." + e;
    JoinedComponents(d, e);
    assert EmptyComponentAt("", 0);
    result := ConcatDirectories(p.device, d, e, FilenameText(p));
    TextOfCut(p.device, d, e, FilenameText(p));
  }

  lemma TextOfCut(device: string, d: string, e: string, f: string)
    ensures device + ":" + ("[" + (d + "." + e) + "]" + f) == device + ":[" + d + "." + e + "]" + f
  {
  }

  // ---- vms_to_posix ----

  predicate NotColon(c: char) { c != ':' }
  predicate NotClose(c: char) { c != ']' }

  function PosixFile(f: string): string {
    if f == "" then "" else "/" + f
  }

  function PosixRest(rest: string): string {
    var rb := Span(rest, 0, NotClose);
    if rest != "" && rest[0] == '[' && rb < |rest| then "/" + Slashed(rest[1..rb]) + PosixFile(rest[rb + 1..])
    else PosixFile(rest)
  }

  /** The conversion of the deploy protocol, apart from its buffer and its check of the segments. */
  function Posix(vms: string): Option<string> {
    var colon := Span(vms, 0, NotColon);
    if colon == |vms| || colon == 0 then None
    else Some("/" + vms[..colon] + PosixRest(vms[colon + 1..]))
  }

  /** A segment "." or ".." starts at index `i`. */
  predicate DotSegmentAt(s: string, i: nat) {
    && i < |s| && s[i] == '.' && (i == 0 || s[i - 1] == '/')
    && (i + 1 == |s| || s[i + 1] == '/' || (s[i + 1] == '.' && (i + 2 == |s| || s[i + 2] == '/')))
  }

  predicate HasDotSegment(s: string) {
    exists i | 0 <= i < |s| :: DotSegmentAt(s, i)
  }

  /** The conversion succeeds for a path with a device whose result fits and has no dot segment. */
  predicate Converts(vms: string, outSize: nat) {
    && outSize >= 2 && Posix(vms).Some? && |Posix(vms).value| < outSize
    && !HasDotSegment(Posix(vms).value)
  }

  method VmsToPosix(vms: string, outSize: nat) returns (result: Option<string>)
    ensures result == if Converts(vms, outSize) then Posix(vms) else None
  {
    if outSize < 2 {
      return None;
    }
    var colon := Find(vms, 0, ':');
    SpanIs(vms, 0, colon, NotColon);
    if colon == |vms| || colon == 0 {
      return None;
    }
    var posix := Fill(outSize, vms[..colon], vms[colon + 1..]);
    if posix.None? {
      return None;
    }
    result := Checked(posix.value);
  }

  /** The result of filling the buffer, if it fits. */
  method Fill(outSize: nat, device: string, rest: string) returns (posix: Option<string>)
    requires 2 <= outSize
    ensures posix == if |"/" + device + PosixRest(rest)| < outSize then Some("/" + device + PosixRest(rest)) else None
  {
    var out := new char[outSize];
    var ok, pos := Convert(out, device, rest);
    if !ok {
      return None;
    }
    posix := Some(out[..pos]);
    out[pos] := '\0'; // the end marker
  }

  /** The end of vms_to_posix: a result with a dot segment is no result. */
  method Checked(posix: string) returns (result: Option<string>)
    ensures result == if HasDotSegment(posix) then None else Some(posix)
  {
    var bad := CheckSegments(posix);
    result := if bad then None else Some(posix);
  }

  /** The part of vms_to_posix that fills the buffer. */
  method Convert(out: array<char>, device: string, rest: string) returns (ok: bool, pos: nat)
    requires 2 <= out.Length
    modifies out
    ensures var posix := "/" + device + PosixRest(rest);
            && (ok <==> |posix| < out.Length)
            && (ok ==> pos == |posix| && out[..pos] == posix)
  {
    out[0] := '/';
    ok, pos := Append(out, 1, device, false);
    if ok {
      assert out[..pos] == "/" + device;
      ok, pos := ConvertRest(out, pos, rest);
    }
  }

  /** The part of vms_to_posix after the device. */
  method ConvertRest(out: array<char>, at: nat, rest: string) returns (ok: bool, pos: nat)
    requires at < out.Length
    modifies out
    ensures ok <==> at + |PosixRest(rest)| < out.Length
    ensures ok ==> pos == at + |PosixRest(rest)| && out[..pos] == old(out[..at]) + PosixRest(rest)
  {
    var rb := Find(rest, 0, ']');
    SpanIs(rest, 0, rb, NotClose);
    ghost var before := out[..at];
    if rest != "" && rest[0] == '[' && rb < |rest| {
      ok, pos := AppendAfterSlash(out, at, rest[1..rb], true);
      if !ok {
        return;
      }
      ghost var middle := "/" + Piece(rest[1..rb], true);
      assert out[..pos] == before + middle;
      ok, pos := AppendFile(out, pos, rest[rb + 1..]);
      Regroup(before, middle, PosixFile(rest[rb + 1..]));
    } else {
      ok, pos := AppendFile(out, at, rest);
    }
  }

  lemma {:induction false} Regroup(a: string, b: string, c: string)
    ensures (a + b) + c == a + (b + c)
  {
  }

  method AppendFile(out: array<char>, at: nat, fname: string) returns (ok: bool, pos: nat)
    requires at < out.Length
    modifies out
    ensures ok <==> at + |PosixFile(fname)| < out.Length
    ensures ok ==> pos == at + |PosixFile(fname)| && out[..pos] == old(out[..at]) + PosixFile(fname)
  {
    ok, pos := true, at;
    if fname != "" {
      ok, pos := AppendAfterSlash(out, at, fname, false);
    }
  }

  method AppendAfterSlash(out: array<char>, at: nat, s: string, dots: bool) returns (ok: bool, pos: nat)
    requires at < out.Length
    modifies out
    ensures ok <==> at + 1 + |s| < out.Length
    ensures ok ==> pos == at + 1 + |s| && out[..pos] == old(out[..at]) + ("/" + Piece(s, dots))
  {
    ok, pos := at < out.Length - 1, at;
    if ok {
      out[pos] := '/';
      pos := pos + 1;
      assert out[..pos] == old(out[..at]) + "/";
      ok, pos := Append(out, pos, s, dots);
      Regroup(old(out[..at]), "/", Piece(s, dots));
    }
  }

  method Find(s: string, i: nat, c: char) returns (j: nat)
    requires i <= |s|
    ensures i <= j <= |s| && (forall k | i <= k < j :: s[k] != c) && (j < |s| ==> s[j] == c)
  {
    j := i;
    while j < |s| && s[j] != c
      invariant i <= j <= |s| && forall k | i <= k < j :: s[k] != c
    {
      j := j + 1;
    }
  }

  /** Adds characters while there is room for them and the end marker. */
  method Append(out: array<char>, at: nat, s: string, dots: bool) returns (ok: bool, pos: nat)
    requires at < out.Length
    modifies out
    ensures ok <==> at + |s| < out.Length
    ensures ok ==> pos == at + |s| && out[..pos] == old(out[..at]) + Piece(s, dots)
  {
    pos := at;
    for i := 0 to |s|
      invariant pos == at + i < out.Length
      invariant out[..pos] == old(out[..at]) + Piece(s, dots)[..i]
    {
      if pos >= out.Length - 1 {
        return false, pos;
      }
      out[pos] := if dots && s[i] == '.' then '/' else s[i];
      pos := pos + 1;
      assert Piece(s, dots)[..i + 1] == Piece(s, dots)[..i] + [Piece(s, dots)[i]];
    }
    assert Piece(s, dots)[..|s|] == Piece(s, dots);
    ok := true;
  }

  /** The end of vms_to_posix: looks at one segment after the other. */
  method CheckSegments(out: string) returns (bad: bool)
    ensures bad == HasDotSegment(out)
  {
    var seg := SkipSlashes(out, 0);
    while seg < |out|
      invariant seg <= |out| && (seg == 0 || out[seg - 1] == '/') && (seg < |out| ==> out[seg] != '/')
      invariant forall i | 0 <= i < seg :: !DotSegmentAt(out, i)
      decreases |out| - seg
    {
      var segEnd := Find(out, seg, '/');
      var segLen := segEnd - seg;
      if (segLen == 1 && out[seg] == '.') || (segLen == 2 && out[seg] == '.' && out[seg + 1] == '.') {
        assert DotSegmentAt(out, seg);
        return true;
      }
      assert !DotSegmentAt(out, seg);
      if segEnd == |out| {
        return false;
      }
      seg := SkipSlashes(out, segEnd + 1);
    }
    bad := false;
  }

  method SkipSlashes(s: string, i: nat) returns (j: nat)
    requires i <= |s| && (i == 0 || s[i - 1] == '/')
    ensures i <= j <= |s| && (j == 0 || s[j - 1] == '/') && (j < |s| ==> s[j] != '/')
    ensures forall k | i <= k < j :: s[k] == '/'
  {
    j := i;
    while j < |s| && s[j] == '/'
      invariant i <= j <= |s| && (j == 0 || s[j - 1] == '/') && forall k | i <= k < j :: s[k] == '/'
    {
      j := j + 1;
    }
  }

  // ---- The two conversions ----

  lemma {:induction false} PosixOf(device: string, rest: string)
    requires device != "" && AllDeviceChars(device)
    ensures Posix(device + ":" + rest) == Some("/" + device + PosixRest(rest))
  {
    var vms := device + ":" + rest;
    SpanIs(vms, 0, |device|, NotColon);
    assert vms[..|device|] == device && vms[|device| + 1..] == rest;
  }

  lemma {:induction false} PosixRestOfDirectory(d: string, f: string)
    requires AllPathChars(d)
    ensures PosixRest("[" + d + "]" + f) == "/" + Slashed(d) + PosixFile(f)
  {
    var rest := "[" + d + "]" + f;
    assert forall k | 1 <= k < 1 + |d| :: rest[k] == d[k - 1];
    SpanIs(rest, 0, 1 + |d|, NotClose);
    assert rest[1..1 + |d|] == d && rest[2 + |d|..] == f;
  }

  lemma {:induction false} AgreeOnText(p: Path)
    requires Good(p)
    ensures Posix(Text(p)).Some? && Unix(p) == Posix(Text(p)).value + if p.filename.None? then "/" else ""
  {
    PosixOf(p.device, DirectoryText(p));
    if p.directory.Some? {
      AgreeWithDirectory(p);
    } else {
      AgreeWithout(p);
    }
  }

  lemma {:induction false} AgreeWithDirectory(p: Path)
    requires Good(p) && p.directory.Some?
    ensures Unix(p) == ("/" + p.device + PosixRest(DirectoryText(p))) + if p.filename.None? then "/" else ""
  {
    var d, f := p.directory.value, FilenameText(p);
    GoodHasNoSlash(p);
    assert DirectoryText(p) == "[" + d + "]" + f;
    PosixRestOfDirectory(d, f);
    RegroupWithDirectory(p.device, Slashed(d), f);
    assert Unix(p) == "/" + p.device + "/" + (Slashed(d) + "/") + f;
  }

  lemma {:induction false} AgreeWithout(p: Path)
    requires Good(p) && p.directory.None?
    ensures Unix(p) == ("/" + p.device + PosixRest(DirectoryText(p))) + if p.filename.None? then "/" else ""
  {
    var f := FilenameText(p);
    assert DirectoryText(p) == f;
    assert f != "" ==> IsPathChar(f[0]);
    RegroupWithout(p.device, f);
  }

  lemma {:induction false} RegroupWithDirectory(device: string, x: string, f: string)
    ensures "/" + device + "/" + (x + "/") + f
            == ("/" + device + ("/" + x + PosixFile(f))) + if f == "" then "/" else ""
  {
  }

  lemma {:induction false} RegroupWithout(device: string, f: string)
    ensures "/" + device + "/" + "" + f == ("/" + device + PosixFile(f)) + if f == "" then "/" else ""
  {
  }

  lemma {:induction false} DifferOnBrackets(p: Path)
    requires Good(p) && p.directory.None?
    ensures Posix(BracketText(p)).Some?
    ensures |Posix(BracketText(p)).value| == |Unix(p)| + if p.filename.None? then 0 else 1
    ensures p.filename.None? ==> Posix(BracketText(p)).value == Unix(p)
  {
    var f := FilenameText(p);
    BracketPosix(p.device, f);
    RegroupBrackets(p.device, f);
    assert Unix(p) == "/" + p.device + "/" + "" + f;
  }

  lemma {:induction false} BracketPosix(device: string, f: string)
    requires device != "" && AllDeviceChars(device)
    ensures Posix(device + ":" + ("[]" + f)) == Some("/" + device + ("/" + Slashed("") + PosixFile(f)))
  {
    PosixOf(device, "[]" + f);
    assert "[]" + f == "[" + "" + "]" + f;
    PosixRestOfDirectory("", f);
  }

  lemma {:induction false} RegroupBrackets(device: string, f: string)
    ensures |"/" + device + ("/" + Slashed("") + PosixFile(f))|
            == |"/" + device + "/" + "" + f| + if f == "" then 0 else 1
    ensures f == "" ==> "/" + device + ("/" + Slashed("") + PosixFile(f)) == "/" + device + "/" + "" + f
  {
    assert Slashed("") == "";
  }

  /**
   * The two conversions agree on every path that parses, up to a slash at the end when
   * there is no file, unless empty brackets are followed by a file: then the one for
   * the deploy protocol has a second slash.
   */
  lemma {:induction false} ConversionsAgree(s: string, p: Path)
    requires Parsed(s) == Ok(p)
    ensures Posix(s).Some?
    ensures Unix(p) == Posix(s).value || Unix(p) == Posix(s).value + "/" <==> s == Text(p) || p.filename.None?
    ensures s == Text(p) ==> Unix(p) == Posix(s).value + if p.filename.None? then "/" else ""
  {
    ParsedExactly(s, p);
    if s == Text(p) {
      AgreeOnText(p);
    } else {
      DifferOnBrackets(p);
    }
  }

  /** On a path that parses, the conversion of the deploy protocol can fail for lack of room only. */
  lemma {:induction false} ParsedConverts(s: string, p: Path, outSize: nat)
    requires Parsed(s) == Ok(p) && s == Text(p)
    ensures Posix(s).Some?
    ensures Converts(s, outSize) <==> |Posix(s).value| < outSize
  {
    ConversionsAgree(s, p);
    ParsedExactly(s, p);
    UnixHasNoDotSegment(p);
    var u, x := Unix(p), Posix(s).value;
    forall i: nat ensures !DotSegmentAt(x, i) {
      assert DotSegmentAt(x, i) ==> DotSegmentAt(u, i);
    }
  }

  lemma {:induction false} UnixHasNoDotSegment(p: Path)
    requires Good(p)
    ensures forall i: nat :: !DotSegmentAt(Unix(p), i)
  {
    GoodHasNoSlash(p);
    DotsInFilename(p);
    var head := "/" + p.device + "/" + Front(p);
    UnixIs(p);
    forall i: nat ensures !DotSegmentAt(Unix(p), i) {
      NoDotSegment(head, FilenameText(p), i);
    }
  }

  lemma {:induction false} UnixIs(p: Path)
    ensures Unix(p) == "/" + p.device + "/" + Front(p) + FilenameText(p)
  {
  }

  lemma {:induction false} NoDotSegment(head: string, f: string, i: nat)
    requires head != "" && head[|head| - 1] == '/' && (forall k | 0 <= k < |head| :: head[k] != '.')
    requires NoSlash(f) && !AllDots(f)
    ensures !DotSegmentAt(head + f, i)
  {
    var u := head + f;
    assert forall k | 0 <= k < |head| :: u[k] == head[k];
    assert forall k | 0 <= k < |f| :: u[|head| + k] == f[k];
    if i > |head| && i < |u| {
      assert u[|head| + (i - 1 - |head|)] == f[i - 1 - |head|];
    }
  }

  /** Dots are left in the file name only. */
  lemma {:induction false} DotsInFilename(p: Path)
    requires Good(p)
    ensures var head := "/" + p.device + "/" + Front(p);
            head[|head| - 1] == '/' && forall i | 0 <= i < |head| :: head[i] != '.'
  {
    var dev := "/" + p.device + "/";
    assert forall i | 1 <= i < 1 + |p.device| :: dev[i] == p.device[i - 1];
    assert forall i | 0 <= i < |Front(p)| :: Front(p)[i] != '.';
    UnixParts(p);
    var head := dev + Front(p);
    assert forall i | 0 <= i < |dev| :: head[i] == dev[i];
    assert forall i | 0 <= i < |Front(p)| :: head[|dev| + i] == Front(p)[i];
  }
}
