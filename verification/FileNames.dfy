// Which file a POSIX path names. The file system takes the device before the second
// slash, and after it one name after the other, however many slashes are between them
// and whether or not there are some at the end. The normal form of a path has one slash
// before each name and none at the end.
module FileNames {
  import opened Options
  import opened Paths

  /** A file or directory: its device, and the names on the way to it. */
  datatype Place = Place(device: string, names: seq<string>)

  predicate NotSlash(c: char) { c != '/' }

  /** The names in a text, without the slashes. */
  function Segments(s: string): seq<string>
    decreases |s|
  {
    if s == "" then []
    else if s[0] == '/' then Segments(s[1..])
    else var j := Span(s, 0, NotSlash); [s[..j]] + Segments(s[j..])
  }

  function PlaceOf(posix: string): Place
    requires posix != ""
  {
    var j := Span(posix, 1, NotSlash);
    Place(posix[1..j], Segments(posix[j..]))
  }

  /** The text without a slash that another one follows, or nothing. */
  function Squeeze(s: string): string {
    if s == "" then ""
    else
      var rest := Squeeze(s[1..]);
      if s[0] == '/' && (rest == "" || rest[0] == '/') then rest else [s[0]] + rest
  }

  function Normal(posix: string): string
    requires posix != ""
  {
    var j := Span(posix, 1, NotSlash);
    posix[..j] + Squeeze(posix[j..])
  }

  predicate IsName(s: string) {
    s != "" && NoSlash(s)
  }

  predicate AreNames(names: seq<string>) {
    forall i | 0 <= i < |names| :: IsName(names[i])
  }

  function Slashes(names: seq<string>): string {
    if names == [] then "" else "/" + names[0] + Slashes(names[1..])
  }

  lemma {:induction false} SegmentsAreNames(s: string)
    ensures AreNames(Segments(s))
    decreases |s|
  {
    if s != "" && s[0] == '/' {
      SegmentsAreNames(s[1..]);
    } else if s != "" {
      var j := Span(s, 0, NotSlash);
      SegmentsAreNames(s[j..]);
      assert IsName(s[..j]);
    }
  }

  lemma {:induction false} SqueezeAfterName(name: string, rest: string)
    requires NoSlash(name) && (rest == "" || rest[0] == '/')
    ensures Squeeze(name + rest) == name + Squeeze(rest)
  {
    if name == "" {
      assert name + rest == rest;
    } else {
      assert (name + rest)[1..] == name[1..] + rest;
      SqueezeAfterName(name[1..], rest);
    }
  }

  /** Squeezing leaves one slash before each name. */
  lemma {:induction false} SqueezeIs(s: string)
    requires s == "" || s[0] == '/'
    ensures Squeeze(s) == Slashes(Segments(s))
    decreases |s|
  {
    if s == "" {
    } else if s[1..] == "" || s[1..][0] == '/' {
      SqueezeIs(s[1..]);
    } else {
      var t := s[1..];
      var j := Span(t, 0, NotSlash);
      assert t == t[..j] + t[j..];
      SqueezeAfterName(t[..j], t[j..]);
      SqueezeIs(t[j..]);
      assert Segments(s) == [t[..j]] + Segments(t[j..]);
      assert ([t[..j]] + Segments(t[j..]))[1..] == Segments(t[j..]);
    }
  }

  lemma {:induction false} NameThenRest(a: string, s: string, b: string, t: string)
    requires NoSlash(a) && NoSlash(b) && (s == "" || s[0] == '/') && (t == "" || t[0] == '/')
    requires a + s == b + t
    ensures a == b && s == t
  {
    var u := a + s;
    assert forall i | 0 <= i < |a| :: u[i] == a[i];
    assert forall i | 0 <= i < |b| :: u[i] == b[i];
    assert |a| < |u| ==> u[|a|] == '/';
    assert |b| < |u| ==> u[|b|] == '/';
    assert |a| == |b|;
    assert a == u[..|a|] && b == u[..|b|] && s == u[|a|..] && t == u[|b|..];
  }

  lemma {:induction false} SlashesAreInjective(a: seq<string>, b: seq<string>)
    requires AreNames(a) && AreNames(b) && Slashes(a) == Slashes(b)
    ensures a == b
  {
    if a != [] && b != [] {
      var s, t := Slashes(a[1..]), Slashes(b[1..]);
      assert IsName(a[0]) && IsName(b[0]);
      assert Slashes(a)[1..] == a[0] + s && Slashes(b)[1..] == b[0] + t;
      NameThenRest(a[0], s, b[0], t);
      assert forall i | 0 <= i < |a[1..]| :: a[1..][i] == a[i + 1];
      assert forall i | 0 <= i < |b[1..]| :: b[1..][i] == b[i + 1];
      SlashesAreInjective(a[1..], b[1..]);
      assert a == [a[0]] + a[1..] && b == [b[0]] + b[1..];
    }
  }

  lemma {:induction false} NormalIs(posix: string)
    requires posix != "" && posix[0] == '/'
    ensures var p := PlaceOf(posix);
            NoSlash(p.device) && AreNames(p.names) && Normal(posix) == "/" + (p.device + Slashes(p.names))
  {
    var j := Span(posix, 1, NotSlash);
    SegmentsAreNames(posix[j..]);
    SqueezeIs(posix[j..]);
    assert posix[..j] == "/" + posix[1..j];
  }

  /** Two paths name one file exactly when their normal forms agree. */
  lemma {:induction false} NormalExactly(s: string, t: string)
    requires s != "" && s[0] == '/' && t != "" && t[0] == '/'
    ensures PlaceOf(s) == PlaceOf(t) <==> Normal(s) == Normal(t)
  {
    NormalIs(s);
    NormalIs(t);
    var p, q := PlaceOf(s), PlaceOf(t);
    if Normal(s) == Normal(t) {
      assert Normal(s)[1..] == p.device + Slashes(p.names) && Normal(t)[1..] == q.device + Slashes(q.names);
      NameThenRest(p.device, Slashes(p.names), q.device, Slashes(q.names));
      SlashesAreInjective(p.names, q.names);
    }
  }

  lemma {:induction false} SegmentsOfSlashes(names: seq<string>)
    requires AreNames(names)
    ensures Segments(Slashes(names)) == names
  {
    if names != [] {
      var rest := Slashes(names[1..]);
      assert IsName(names[0]);
      assert forall i | 0 <= i < |names[1..]| :: names[1..][i] == names[i + 1];
      SegmentsOfSlashes(names[1..]);
      var t := names[0] + rest;
      assert Slashes(names)[1..] == t;
      SpanIs(t, 0, |names[0]|, NotSlash);
      assert t[..|names[0]|] == names[0] && t[|names[0]|..] == rest;
    }
  }

  /** The normal form of a path names the same file, and is its own normal form. */
  lemma {:induction false} NormalStays(posix: string)
    requires posix != "" && posix[0] == '/'
    ensures Normal(posix) != "" && Normal(posix)[0] == '/'
    ensures PlaceOf(Normal(posix)) == PlaceOf(posix) && Normal(Normal(posix)) == Normal(posix)
  {
    NormalIs(posix);
    var p, n := PlaceOf(posix), Normal(posix);
    var j := 1 + |p.device|;
    SpanIs(n, 1, j, NotSlash);
    assert n[1..j] == p.device && n[j..] == Slashes(p.names);
    SegmentsOfSlashes(p.names);
    NormalExactly(n, posix);
  }

  // ---- The files that requests name ----

  /** No slash follows another, and none is last. */
  predicate Neat(s: string) {
    && (forall i | 0 <= i < |s| - 1 :: s[i] != '/' || s[i + 1] != '/')
    && (s != "" ==> s[|s| - 1] != '/')
  }

  lemma {:induction false} NeatStays(s: string)
    requires Neat(s)
    ensures Squeeze(s) == s
  {
    if s != "" {
      assert forall i | 0 <= i < |s[1..]| :: s[1..][i] == s[i + 1];
      NeatStays(s[1..]);
    }
  }

  /** A device and what follows it. */
  lemma {:induction false} PlaceOfParts(u: string, device: string, rest: string)
    requires u == "/" + device + rest && NoSlash(device) && (rest == "" || rest[0] == '/')
    ensures u != "" && u[0] == '/'
    ensures PlaceOf(u) == Place(device, Segments(rest)) && Normal(u) == "/" + device + Squeeze(rest)
  {
    var j := 1 + |device|;
    SpanIs(u, 1, j, NotSlash);
    assert u[1..j] == device && u[..j] == "/" + device && u[j..] == rest;
  }

  lemma {:induction false} UnixBegins(p: Path)
    requires Good(p)
    ensures Unix(p) == "/" + p.device + ("/" + Front(p) + FilenameText(p)) && NoSlash(p.device)
    ensures Unix(p) != "" && Unix(p)[0] == '/'
  {
    GoodHasNoSlash(p);
    UnixIs(p);
  }

  /** The Unix form of a path with a file is in normal form. */
  lemma {:induction false} UnixIsNormal(p: Path)
    requires Good(p) && p.filename.Some?
    ensures Normal(Unix(p)) == Unix(p)
  {
    UnixBegins(p);
    var rest := "/" + Front(p) + FilenameText(p);
    PlaceOfParts(Unix(p), p.device, rest);
    FrontIsNeat(p);
    NeatStays(rest);
  }

  lemma {:induction false} FrontIsNeat(p: Path)
    requires Good(p) && p.filename.Some?
    ensures Neat("/" + Front(p) + FilenameText(p))
  {
    GoodHasNoSlash(p);
    if p.directory.Some? {
      var d := p.directory.value;
      forall i | 0 <= i < |d| - 1 ensures d[i] != '.' || d[i + 1] != '.' {
        assert !EmptyComponentAt(d, i + 1);
      }
      assert !EmptyComponentAt(d, 0) && !EmptyComponentAt(d, |d|);
      SlashedAt(d);
    }
  }

  lemma {:induction false} SlashedAt(s: string)
    ensures |Slashed(s)| == |s|
    ensures forall i | 0 <= i < |s| :: Slashed(s)[i] == if s[i] == '.' then '/' else s[i]
  {
    if s != "" {
      SlashedAt(s[1..]);
    }
  }

  /** Different paths to a file name different files. */
  lemma {:induction false} DifferentFiles(p: Path, q: Path)
    requires Good(p) && Good(q) && p.filename.Some? && q.filename.Some?
    ensures Posix(Text(p)) == Some(Unix(p)) && Posix(Text(q)) == Some(Unix(q))
    ensures PlaceOf(Unix(p)) == PlaceOf(Unix(q)) <==> p == q
  {
    FileTextIsUnix(p);
    FileTextIsUnix(q);
    UnixIsNormal(p);
    UnixIsNormal(q);
    NormalExactly(Unix(p), Unix(q));
    if p != q {
      UnixDiffers(p, q);
    }
  }

  lemma {:induction false} UnixDiffers(p: Path, q: Path)
    requires Good(p) && Good(q) && p != q
    ensures Unix(p) != Unix(q)
  {
    if Unix(p) == Unix(q) {
      UnixIsInjective(p, q);
    }
  }

  lemma {:induction false} FileTextIsUnix(p: Path)
    requires Good(p) && p.filename.Some?
    ensures Posix(Text(p)) == Some(Unix(p)) && Unix(p) != "" && Unix(p)[0] == '/'
  {
    AgreeOnText(p);
    UnixBegins(p);
    assert Posix(Text(p)).value + "" == Posix(Text(p)).value;
  }

  /** The names before a slash, and those after it. */
  lemma {:induction false} SegmentsJoin(s: string, t: string)
    ensures Segments(s + ("/" + t)) == Segments(s) + Segments(t)
    decreases |s|
  {
    var u := s + ("/" + t);
    if s == "" {
      assert u == "/" + t && u[1..] == t;
    } else if s[0] == '/' {
      assert u[1..] == s[1..] + ("/" + t);
      SegmentsJoin(s[1..], t);
    } else {
      var j := Span(s, 0, NotSlash);
      SpanIs(u, 0, j, NotSlash);
      assert u[..j] == s[..j] && u[j..] == s[j..] + ("/" + t);
      SegmentsJoin(s[j..], t);
    }
  }

  /** A slash at the end of a path does not matter. */
  lemma {:induction false} EndSlash(posix: string)
    requires posix != "" && posix[0] == '/'
    ensures PlaceOf(posix + "/") == PlaceOf(posix)
  {
    var j := Span(posix, 1, NotSlash);
    SpanIs(posix + "/", 1, j, NotSlash);
    assert (posix + "/")[1..j] == posix[1..j] && (posix + "/")[j..] == posix[j..] + ("/" + "");
    SegmentsJoin(posix[j..], "");
  }

  /** Both conversions of a path that parses name the same file, with empty brackets or without. */
  lemma {:induction false} ConversionsNameOneFile(s: string, p: Path)
    requires Parsed(s) == Ok(p)
    ensures Posix(s).Some? && Posix(s).value != "" && Unix(p) != ""
    ensures PlaceOf(Unix(p)) == PlaceOf(Posix(s).value)
  {
    ParsedExactly(s, p);
    if s == Text(p) {
      TextNamesTheFile(p);
    } else {
      BracketsDoNotMatter(p);
    }
  }

  lemma {:induction false} TextNamesTheFile(p: Path)
    requires Good(p)
    ensures Posix(Text(p)).Some? && Posix(Text(p)).value != "" && Unix(p) != ""
    ensures PlaceOf(Unix(p)) == PlaceOf(Posix(Text(p)).value)
  {
    AgreeOnText(p);
    UnixBegins(p);
    PosixBegins(Text(p));
    SlashAtMost(Posix(Text(p)).value, Unix(p), p.filename.None?);
  }

  lemma {:induction false} PosixBegins(vms: string)
    ensures Posix(vms).Some? ==> Posix(vms).value != "" && Posix(vms).value[0] == '/'
  {
  }

  lemma {:induction false} SlashAtMost(posix: string, unix: string, more: bool)
    requires posix != "" && posix[0] == '/' && unix == posix + if more then "/" else ""
    ensures unix != "" && PlaceOf(unix) == PlaceOf(posix)
  {
    if more {
      EndSlash(posix);
    } else {
      assert unix == posix;
    }
  }

  lemma {:induction false} BracketsDoNotMatter(p: Path)
    requires Good(p) && p.directory.None?
    ensures Posix(BracketText(p)).Some? && Posix(BracketText(p)).value != "" && Unix(p) != ""
    ensures PlaceOf(Unix(p)) == PlaceOf(Posix(BracketText(p)).value)
  {
    GoodHasNoSlash(p);
    BracketPosixIs(p.device, FilenameText(p));
    UnixWithout(p);
    TwoSlashes(p.device, FilenameText(p));
  }

  lemma {:induction false} UnixWithout(p: Path)
    requires p.directory.None?
    ensures Unix(p) == "/" + p.device + ("/" + FilenameText(p))
  {
    Joins("/" + p.device, FilenameText(p));
  }

  lemma {:induction false} Joins(a: string, f: string)
    ensures a + "/" + "" + f == a + ("/" + f)
  {
  }

  lemma {:induction false} BracketPosixIs(device: string, f: string)
    requires device != "" && AllDeviceChars(device)
    ensures Posix(device + ":" + ("[]" + f)) == Some("/" + device + ("/" + PosixFile(f)))
  {
    BracketPosix(device, f);
    NothingSlashed(PosixFile(f));
  }

  lemma {:induction false} NothingSlashed(f: string)
    ensures "/" + Slashed("") + f == "/" + f
  {
  }

  /** One slash before a name, or two, or one at the end. */
  lemma {:induction false} TwoSlashes(device: string, f: string)
    requires NoSlash(device)
    ensures PlaceOf("/" + device + ("/" + f)) == PlaceOf("/" + device + ("/" + PosixFile(f)))
  {
    PlaceOfParts("/" + device + ("/" + f), device, "/" + f);
    PlaceOfParts("/" + device + ("/" + PosixFile(f)), device, "/" + PosixFile(f));
    assert ("/" + f)[1..] == f && ("/" + PosixFile(f))[1..] == PosixFile(f);
    if f != "" {
      assert PosixFile(f)[1..] == f;
    }
  }

  // ---- The names in a path ----

  /** The names that a path is made of, in its own notation: the components of its directory, and its file. */
  function NamesOf(p: Path): seq<string> {
    DirectoryNames(p.directory) + if p.filename.Some? then [p.filename.value] else []
  }

  lemma {:induction false} SlashedIs(d: string)
    ensures "/" + Slashed(d) == Slashes(Components(d))
  {
    if d == "" {
      assert Slashed(d) == "" && Slashes([""]) == "/" + "" + Slashes([]);
    } else {
      var rest := Components(d[1..]);
      SlashedIs(d[1..]);
      assert Slashed(d) == [if d[0] == '.' then '/' else d[0]] + Slashed(d[1..]);
      if d[0] == '.' {
        assert ([""] + rest)[1..] == rest;
      } else {
        assert ([[d[0]] + rest[0]] + rest[1..])[1..] == rest[1..];
        assert "/" + ([d[0]] + rest[0]) + Slashes(rest[1..]) == "/" + [d[0]] + (rest[0] + Slashes(rest[1..]));
        assert ("/" + Slashed(d[1..]))[1..] == rest[0] + Slashes(rest[1..]);
      }
    }
  }

  /** A component that is empty is one in the sense of the parser; the first one only if it is the start. */
  lemma {:induction false} EmptyLater(d: string, k: nat)
    requires 1 <= k < |Components(d)| && Components(d)[k] == ""
    ensures exists i :: i >= 1 && EmptyComponentAt(d, i)
  {
    if d != "" {
      var e, rest := d[1..], Components(d[1..]);
      if d[0] == '.' && k == 1 {
        assert rest[0] == "" && (e == "" || e[0] == '.');
        assert EmptyComponentAt(d, 1);
      } else {
        EmptyLater(e, if d[0] == '.' then k - 1 else k);
        var i :| i >= 1 && EmptyComponentAt(e, i);
        assert EmptyComponentAt(d, i + 1);
      }
    }
  }

  lemma {:induction false} GoodComponents(d: string)
    requires GoodDirectory(d) && NoSlash(d)
    ensures AreNames(Components(d))
  {
    ComponentsHaveNoSlash(d);
    assert Components(d)[0] == "" ==> EmptyComponentAt(d, 0);
    forall k | 1 <= k < |Components(d)| ensures Components(d)[k] != "" {
      if Components(d)[k] == "" {
        EmptyLater(d, k);
      }
    }
  }

  lemma {:induction false} ComponentsHaveNoSlash(d: string)
    requires NoSlash(d)
    ensures forall k | 0 <= k < |Components(d)| :: NoSlash(Components(d)[k])
  {
    if d != "" {
      assert forall i | 0 <= i < |d[1..]| :: d[1..][i] == d[i + 1];
      ComponentsHaveNoSlash(d[1..]);
    }
  }

  lemma {:induction false} SlashesJoin(a: seq<string>, b: seq<string>)
    ensures Slashes(a + b) == Slashes(a) + Slashes(b)
  {
    if a == [] {
      assert a + b == b;
    } else {
      assert (a + b)[1..] == a[1..] + b;
      SlashesJoin(a[1..], b);
      assert "/" + a[0] + (Slashes(a[1..]) + Slashes(b)) == "/" + a[0] + Slashes(a[1..]) + Slashes(b);
    }
  }

  lemma FileSlashes(f: Option<string>)
    requires f.Some? ==> f.value != ""
    ensures Slashes(if f.Some? then [f.value] else []) == PosixFile(if f.Some? then f.value else "")
  {
    if f.Some? {
      assert [f.value][1..] == [];
      assert "/" + f.value + "" == "/" + f.value;
    }
  }

  /** The part of a POSIX path behind the device has a slash before each name of the path. */
  lemma {:induction false} RestIsSlashes(p: Path)
    requires Good(p)
    ensures PosixRest(DirectoryText(p)) == Slashes(NamesOf(p))
  {
    var f := FilenameText(p);
    FileSlashes(p.filename);
    SlashesJoin(DirectoryNames(p.directory), if p.filename.Some? then [p.filename.value] else []);
    if p.directory.Some? {
      assert DirectoryText(p) == "[" + p.directory.value + "]" + f;
      PosixRestOfDirectory(p.directory.value, f);
      SlashedIs(p.directory.value);
    } else {
      assert DirectoryText(p) == f && (f != "" ==> IsPathChar(f[0]));
      assert "" + PosixFile(f) == PosixFile(f);
    }
  }

  lemma {:induction false} AreNamesOf(p: Path)
    requires Good(p)
    ensures AreNames(NamesOf(p)) && NoSlash(p.device)
  {
    GoodHasNoSlash(p);
    if p.directory.Some? {
      GoodComponents(p.directory.value);
    }
  }

  /** A path leads to its device, and there along the components of its directory to its file. */
  lemma {:induction false} TextLeadsTo(p: Path)
    requires Good(p)
    ensures Posix(Text(p)).Some? && Posix(Text(p)).value != ""
    ensures PlaceOf(Posix(Text(p)).value) == Place(p.device, NamesOf(p))
  {
    PosixOf(p.device, DirectoryText(p));
    RestIsSlashes(p);
    AreNamesOf(p);
    PlaceOfParts("/" + p.device + Slashes(NamesOf(p)), p.device, Slashes(NamesOf(p)));
    SegmentsOfSlashes(NamesOf(p));
  }
}
