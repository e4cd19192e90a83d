// Logical names: taking a string apart into device, directories and file, replacing
// what is a name by its target, and putting it together again.
//
// A raw string is text together with the place it points to; two of them compare equal
// when they are the same stretch of the same buffer, whatever the text.
module LogicalNames {
  import opened Options
  import opened TargetLists
  import Paths

  const MAX_DIR_DEPTH: nat := 25
  const RESOLVE_MAX_DEPTH: nat := 15

  /** The buffer that a raw string points into: the input, or a target of a name. */
  datatype Buffer = Nowhere | Input | Target(name: string, index: nat)

  /** raw_string_t */
  datatype Raw = Raw(buffer: Buffer, at: nat, text: string, terminal: bool, count: nat)

  const NULL_RAW: Raw := Raw(Nowhere, 0, "", false, 0)

  /** raw_cmp */
  predicate Same(l: Raw, r: Raw) {
    l.buffer == r.buffer && l.at == r.at && |l.text| == |r.text|
  }

  /** parsed_components_t */
  datatype Components = Components(unparsable: Raw, device: Raw, dirs: seq<Raw>, filename: Raw, count: nat)

  const NULL_COMPONENTS: Components := Components(NULL_RAW, NULL_RAW, [], NULL_RAW, 0)

  /** Parsing is undefined when it runs past the array of directories, or closes one that was not opened. */
  datatype Parse = Parsed(components: Components) | Undefined

  /** The part of `s` from `i` to before `j`. */
  function Part(s: Raw, i: nat, j: nat): Raw
    requires i <= j <= |s.text|
  {
    Raw(s.buffer, s.at + i, s.text[i..j], false, 1)
  }

  // ---- parse_string ----

  /** What the scan knows before character `i`. */
  datatype Scan = Scan(colon: Option<nat>, open: Option<nat>, close: Option<nat>, last: nat, dirs: seq<Raw>)

  datatype Step = Next(scan: Scan) | Junk | Overrun

  predicate ScanOk(s: Raw, i: nat, scan: Scan) {
    && i <= |s.text| && scan.last <= i
    && (scan.colon.Some? ==> scan.colon.value < i) && (scan.close.Some? ==> scan.close.value < i)
    && |scan.dirs| <= MAX_DIR_DEPTH
  }

  function WithDir(s: Raw, i: nat, scan: Scan): Step
    requires i < |s.text| && ScanOk(s, i, scan)
  {
    if scan.open.None? || |scan.dirs| >= MAX_DIR_DEPTH then Overrun
    else Next(scan.(dirs := scan.dirs + [Part(s, scan.last, i)]))
  }

  function OneChar(s: Raw, i: nat, scan: Scan): Step
    requires i < |s.text| && ScanOk(s, i, scan)
  {
    var c := s.text[i];
    if c == ':' then
      if scan.colon.Some? then Junk else Next(scan.(colon := Some(i)))
    else if c == '[' then
      if scan.open.Some? then Junk else Next(scan.(open := Some(i), last := i + 1))
    else if c == ']' then
      if scan.close.Some? then Junk else
      match WithDir(s, i, scan)
      case Next(scan') => Next(scan'.(close := Some(i)))
      case other => other
    else if c == '.' && scan.open.Some? && scan.close.None? then
      match WithDir(s, i, scan)
      case Next(scan') => Next(scan'.(last := i + 1))
      case other => other
    else
      Next(scan)
  }

  /** The scan of the characters before `i`. */
  function ScanOf(s: Raw, i: nat): (r: Step)
    requires i <= |s.text|
    ensures r.Next? ==> ScanOk(s, i, r.scan)
  {
    if i == 0 then Next(Scan(None, None, None, 0, [])) else
    match ScanOf(s, i - 1)
    case Next(scan) => OneChar(s, i - 1, scan)
    case other => other
  }

  /** Where the file name starts, after a whole scan. */
  function FilenameAt(scan: Scan): nat
    requires scan.colon.Some?
  {
    if scan.close.Some? then scan.close.value + 1 else scan.colon.value + 1
  }

  function Filename(s: Raw, from: nat): Raw
    requires from <= |s.text|
  {
    if from < |s.text| then Part(s, from, |s.text|) else NULL_RAW
  }

  function Unparsable(s: Raw): Components {
    Components(s, NULL_RAW, [], NULL_RAW, 1)
  }

  function Finished(s: Raw, scan: Scan): Components
    requires ScanOk(s, |s.text|, scan)
  {
    if scan.colon.None? || (scan.open.Some? && scan.close.None?) then Unparsable(s)
    else Components(NULL_RAW, Part(s, 0, scan.colon.value), scan.dirs, Filename(s, FilenameAt(scan)), 1)
  }

  function ParsedString(s: Raw): Parse {
    match ScanOf(s, |s.text|)
    case Next(scan) => Parsed(Finished(s, scan))
    case Junk => Parsed(Unparsable(s))
    case Overrun => Undefined
  }

  method ParseString(s: Raw) returns (result: Parse)
    ensures result == ParsedString(s)
  {
    var scan := Scan(None, None, None, 0, []);
    for i := 0 to |s.text|
      invariant ScanOk(s, i, scan) && ScanOf(s, i) == Next(scan)
    {
      var step := OneChar(s, i, scan);
      if step.Junk? {
        Stopped(s, i + 1, |s.text|);
        return Parsed(Unparsable(s));
      }
      if step.Overrun? {
        Stopped(s, i + 1, |s.text|);
        return Undefined;
      }
      scan := step.scan;
    }
    result := Parsed(Finished(s, scan));
  }

  /** A scan that stops stays stopped. */
  lemma {:induction false} Stopped(s: Raw, i: nat, j: nat)
    requires i <= j <= |s.text| && !ScanOf(s, i).Next?
    ensures ScanOf(s, j) == ScanOf(s, i)
    decreases j
  {
    if i < j {
      Stopped(s, i, j - 1);
    }
  }

  // ---- Resolving ----

  /** logical_name_target_t */
  datatype Name = Name(targets: seq<string>, terminal: bool)

  type Names = map<string, Name>

  /** Every name has a target: logical_name_set makes no other. */
  predicate Targeted(names: Names) {
    forall s | s in names :: names[s].targets != []
  }

  function TargetOf(names: Names, s: string, idx: nat): Raw
    requires Targeted(names) && s in names
  {
    var targets := names[s].targets;
    if |targets| > 1 then
      var i := if idx > |targets| - 1 then 0 else idx;
      Raw(Target(s, i), 0, targets[i], names[s].terminal, |targets|)
    else
      Raw(Target(s, 0), 0, targets[0], names[s].terminal, 1)
  }

  function ResolveString(names: Names, s: Raw, idx: nat, depth: nat): Raw
    requires Targeted(names)
    decreases if depth > RESOLVE_MAX_DEPTH then 0 else RESOLVE_MAX_DEPTH + 1 - depth
  {
    if s.terminal then s
    else if depth > RESOLVE_MAX_DEPTH || s.text == "" then NULL_RAW
    else if s.text !in names then s
    else ResolveString(names, TargetOf(names, s.text, idx), idx, depth + 1)
  }

  /** resolve_device_string: the name may be with the colon or without. */
  function ResolveDevice(names: Names, s: Raw, idx: nat, depth: nat): Raw
    requires Targeted(names)
  {
    if s.terminal then s
    else if depth > RESOLVE_MAX_DEPTH || s.text == "" then NULL_RAW
    else
      var withColon := s.(text := s.text + ":");
      var r := ResolveString(names, withColon, idx, depth);
      if Same(withColon, r) then ResolveString(names, s, idx, depth) else r
  }

  /** A result that is a list counts for the whole, unless one was met before; then it is read again at its index. */
  function Listed(count: nat, first: Raw, again: Raw): (r: (nat, Raw)) {
    if first.count > 1 && count == 1 then (first.count, again) else (count, first)
  }

  /** What a device that resolved to something else does to the path. */
  function Replaced(path: Components, device: Raw): Parse {
    match ParsedString(device)
    case Undefined => Undefined
    case Parsed(d) =>
      if d.unparsable.text != "" then Parsed(path.(device := device))
      else if |d.dirs| + |path.dirs| > MAX_DIR_DEPTH then Undefined
      else Parsed(path.(
        dirs := d.dirs + path.dirs,
        filename := if d.filename.text != "" then d.filename else path.filename,
        device := if d.device.text != "" then d.device else path.device))
  }

  /** path_cmp, for two paths of which neither is unparsable. */
  predicate SamePath(l: Components, r: Components) {
    && l.count == r.count && |l.dirs| == |r.dirs|
    && Same(l.device, r.device) && Same(l.filename, r.filename)
    && forall i | 0 <= i < |l.dirs| :: Same(l.dirs[i], r.dirs[i])
  }

  /** _logical_name_resolve for a plain string. */
  function ResolvePlain(names: Names, path: Components, idx: nat, depth: nat): Parse
    requires Targeted(names)
    decreases if depth > RESOLVE_MAX_DEPTH then 0 else RESOLVE_MAX_DEPTH + 1 - depth, 0
  {
    if depth > RESOLVE_MAX_DEPTH then Parsed(NULL_COMPONENTS) else
    var (count, res) := Listed(path.count, ResolveString(names, path.unparsable, 0, depth + 1),
                               ResolveString(names, path.unparsable, idx, depth + 1));
    var path' := path.(count := count);
    if res.text == "" || Same(res, path.unparsable) then Parsed(path') else
    match ParsedString(res)
    case Undefined => Undefined
    case Parsed(next) => Resolve(names, next.(count := count), 0, depth + 1)
  }

  /** _logical_name_resolve for a path. */
  function ResolvePath(names: Names, path: Components, idx: nat, depth: nat): Parse
    requires Targeted(names)
    decreases if depth > RESOLVE_MAX_DEPTH then 0 else RESOLVE_MAX_DEPTH + 1 - depth, 0
  {
    if depth > RESOLVE_MAX_DEPTH then Parsed(NULL_COMPONENTS) else
    var (count, device) := Listed(path.count, ResolveDevice(names, path.device, 0, depth + 1),
                                  ResolveDevice(names, path.device, idx, depth + 1));
    var counted := path.(count := count);
    var replaced := if Same(device, path.device) then Parsed(counted) else Replaced(counted, device);
    match replaced
    case Undefined => Undefined
    case Parsed(p) =>
      var path' := Substituted(names, p, depth + 1);
      if SamePath(path, path') then Parsed(path') else Resolve(names, path', idx, depth + 1)
  }

  /** The file name and the directories, each resolved as a string. */
  function Substituted(names: Names, p: Components, depth: nat): Components
    requires Targeted(names)
  {
    p.(filename := ResolveString(names, p.filename, 0, depth),
       dirs := seq(|p.dirs|, i requires 0 <= i < |p.dirs| => ResolveString(names, p.dirs[i], 0, depth)))
  }

  function Resolve(names: Names, path: Components, idx: nat, depth: nat): Parse
    requires Targeted(names)
    decreases if depth > RESOLVE_MAX_DEPTH then 0 else RESOLVE_MAX_DEPTH + 1 - depth, 1
  {
    if path.unparsable.text != "" then ResolvePlain(names, path, idx, depth) else ResolvePath(names, path, idx, depth)
  }

  // ---- Serializing ----

  function JoinedDirs(dirs: seq<Raw>): string {
    if dirs == [] then ""
    else if |dirs| == 1 then dirs[0].text
    else JoinedDirs(dirs[..|dirs| - 1]) + "." + dirs[|dirs| - 1].text
  }

  function Colon(device: string): string {
    if device != "" && device[|device| - 1] != ':' then ":" else ""
  }

  /** The text of components; a path without a device has none. */
  function Serialized(c: Components): Option<string> {
    if c.unparsable.text == "" && c.device.text == "" then None
    else if c.unparsable.text != "" then Some(c.unparsable.text)
    else Some(c.device.text + Colon(c.device.text)
              + (if c.dirs != [] then "[" + JoinedDirs(c.dirs) + "]" else "") + c.filename.text)
  }

  /** The length that parsed_components_serialize allocates, for the directories without brackets. */
  function DirsLength(dirs: seq<Raw>): nat {
    if dirs == [] then 0
    else if |dirs| == 1 then |dirs[0].text|
    else DirsLength(dirs[..|dirs| - 1]) + 1 + |dirs[|dirs| - 1].text|
  }

  lemma {:induction false} DirsFit(dirs: seq<Raw>)
    ensures |JoinedDirs(dirs)| == DirsLength(dirs)
  {
    if |dirs| > 1 {
      DirsFit(dirs[..|dirs| - 1]);
    }
  }

  lemma {:induction false} PrefixFits(dirs: seq<Raw>, i: nat)
    requires i <= |dirs|
    ensures DirsLength(dirs[..i]) <= DirsLength(dirs)
    decreases |dirs| - i
  {
    if i < |dirs| {
      assert dirs[..i + 1][..i] == dirs[..i];
      PrefixFits(dirs, i + 1);
    } else {
      assert dirs[..i] == dirs;
    }
  }

  /** parsed_components_serialize: a buffer of just the right length, filled piece by piece. */
  method Serialize(c: Components) returns (result: Option<string>)
    ensures result == Serialized(c)
  {
    if c.unparsable.text == "" && c.device.text == "" {
      return None;
    }
    if c.unparsable.text != "" {
      return Some(c.unparsable.text);
    }
    DirsFit(c.dirs);
    var brackets := if c.dirs != [] then DirsLength(c.dirs) + 2 else 0;
    var length := |c.device.text| + |Colon(c.device.text)| + brackets + |c.filename.text|;
    var res := new char[length + 1];
    var o := Paths.CopyIn(res, 0, c.device.text, false);
    assert res[..o] == c.device.text;
    o := Paths.CopyIn(res, o, Colon(c.device.text), false);
    o := PutDirs(res, o, c.dirs);
    o := Paths.CopyIn(res, o, c.filename.text, false);
    result := Some(res[..o]);
    res[o] := '\0'; // the end marker
  }

  /** The directories in their brackets. */
  method PutDirs(res: array<char>, at: nat, dirs: seq<Raw>) returns (o: nat)
    requires at + (if dirs != [] then DirsLength(dirs) + 2 else 0) <= res.Length
    modifies res
    ensures o == at + if dirs != [] then |JoinedDirs(dirs)| + 2 else 0
    ensures o <= res.Length
    ensures res[..o] == old(res[..at]) + if dirs != [] then "[" + JoinedDirs(dirs) + "]" else ""
  {
    DirsFit(dirs);
    if dirs == [] {
      return at;
    }
    ghost var head := res[..at] + "[";
    o := Paths.CopyIn(res, at, "[", false);
    for i := 0 to |dirs|
      invariant at + DirsLength(dirs) + 2 <= res.Length
      invariant o == at + 1 + DirsLength(dirs[..i]) <= res.Length
      invariant res[..o] == head + JoinedDirs(dirs[..i])
    {
      PrefixFits(dirs, i + 1);
      o := PutDir(res, o, dirs, i, head);
    }
    assert dirs[..|dirs|] == dirs;
    o := Paths.CopyIn(res, o, "]", false);
    Paths.Regroup(old(res[..at]), "[", JoinedDirs(dirs));
    Paths.Regroup(old(res[..at]), "[" + JoinedDirs(dirs), "]");
  }

  /** One directory, after a dot if it is not the first. */
  method PutDir(res: array<char>, at: nat, dirs: seq<Raw>, i: nat, ghost head: string) returns (o: nat)
    requires i < |dirs| && at <= res.Length && res[..at] == head + JoinedDirs(dirs[..i])
    requires at + DirsLength(dirs[..i + 1]) - DirsLength(dirs[..i]) <= res.Length
    modifies res
    ensures o == at + DirsLength(dirs[..i + 1]) - DirsLength(dirs[..i]) <= res.Length
    ensures res[..o] == head + JoinedDirs(dirs[..i + 1])
  {
    assert dirs[..i + 1][..i] == dirs[..i];
    o := at;
    if i > 0 {
      o := Paths.CopyIn(res, o, ".", false);
    }
    o := Paths.CopyIn(res, o, dirs[i].text, false);
    if i > 0 {
      Paths.Regroup(head, JoinedDirs(dirs[..i]), ".");
      Paths.Regroup(head, JoinedDirs(dirs[..i]) + ".", dirs[i].text);
    }
  }

  /** logical_name_resolve */
  datatype Result = Result(text: Option<string>, count: nat)

  function Resolved(names: Names, name: string, idx: nat): Option<Result>
    requires Targeted(names)
  {
    if name == "" then Some(Result(None, 0)) else
    match ParsedString(Raw(Input, 0, name, false, 1))
    case Undefined => None
    case Parsed(c) =>
      match Resolve(names, c, idx, 0)
      case Undefined => None
      case Parsed(r) => Some(Result(Serialized(r), r.count))
  }

  /** logical_name_table, with the operations on it. */
  class NameTable {
    var names: Names

    ghost predicate Valid()
      reads this
    {
      Targeted(names)
    }

    constructor ()
      ensures Valid() && names == map[]
    {
      names := map[];
    }

    /** logical_name_set: the targets in the list; a list of white space sets nothing. */
    method Set(name: string, list: string, terminal: bool) returns (error: bool)
      requires Valid()
      modifies this
      ensures Valid() && error == Blank(list)
      ensures names == if error then old(names) else old(names)[name := Name(Targets("", list), terminal)]
    {
      NothingIsFound(list);
      var targets := Split(list);
      error := targets == [];
      if !error {
        names := names[name := Name(targets, terminal)];
      }
    }

    /** logical_name_del */
    method Delete(name: string)
      requires Valid()
      modifies this
      ensures Valid() && names == old(names) - {name}
    {
      names := names - {name};
    }

    /** logical_name_resolve; without an answer where the original runs out of its arrays. */
    method ResolveName(name: string, idx: nat) returns (result: Option<Result>)
      requires Valid()
      ensures result == Resolved(names, name, idx)
    {
      if name == "" {
        return Some(Result(None, 0));
      }
      var parsed := ParseString(Raw(Input, 0, name, false, 1));
      if parsed.Undefined? {
        return None;
      }
      var resolved := Resolve(names, parsed.components, idx, 0);
      if resolved.Undefined? {
        return None;
      }
      var text := Serialize(resolved.components);
      result := Some(Result(text, resolved.components.count));
    }
  }

  // ---- Chains of bare names ----

  /** A string that is no path: it has no colon, and nothing that looks like directories. */
  predicate Bare(s: string) {
    s != "" && forall i | 0 <= i < |s| :: s[i] != ':' && s[i] != '[' && s[i] != ']'
  }

  /** `chain` goes from name to name, each with one target; only the last step may be a terminal one. */
  ghost predicate IsChain(names: Names, chain: seq<string>) {
    && Targeted(names) && chain != []
    && (forall i | 0 <= i < |chain| :: Bare(chain[i]))
    && (forall i | 0 <= i < |chain| - 1 :: chain[i] in names && names[chain[i]].targets == [chain[i + 1]])
    && (forall i | 0 <= i < |chain| - 2 :: !names[chain[i]].terminal)
  }

  ghost predicate TerminalEnd(names: Names, chain: seq<string>)
    requires IsChain(names, chain)
  {
    |chain| > 1 && names[chain[|chain| - 2]].terminal
  }

  /** The chain ends in a string that is resolved no further. */
  ghost predicate Ends(names: Names, chain: seq<string>)
    requires IsChain(names, chain)
  {
    TerminalEnd(names, chain) || chain[|chain| - 1] !in names
  }

  lemma {:induction false} BareScan(s: Raw, i: nat)
    requires Bare(s.text) && i <= |s.text|
    ensures ScanOf(s, i) == Next(Scan(None, None, None, 0, []))
  {
    if i > 0 {
      BareScan(s, i - 1);
    }
  }

  lemma {:induction false} BareIsUnparsable(s: Raw)
    requires Bare(s.text)
    ensures ParsedString(s) == Parsed(Unparsable(s))
  {
    BareScan(s, |s.text|);
  }

  /** The raw string at place `i` of a chain that starts at `s`. */
  ghost function Link(names: Names, chain: seq<string>, s: Raw, i: nat): Raw
    requires IsChain(names, chain) && i < |chain|
  {
    if i == 0 then s else Raw(Target(chain[i - 1], 0), 0, chain[i], names[chain[i - 1]].terminal, 1)
  }

  /** The chain is followed to its end from a depth, before resolve_string gives up. */
  ghost predicate Reaches(hops: nat, depth: nat, terminal: bool) {
    hops + depth <= RESOLVE_MAX_DEPTH + (if terminal then 1 else 0) || (hops == 0 && terminal)
  }

  /** resolve_string along a chain, from place `i` on. */
  lemma {:induction false} StringAlongChain(names: Names, chain: seq<string>, s: Raw, i: nat, idx: nat, depth: nat)
    requires IsChain(names, chain) && Ends(names, chain) && s.text == chain[0] && !s.terminal && i < |chain|
    ensures ResolveString(names, Link(names, chain, s, i), idx, depth) ==
            if Reaches(|chain| - 1 - i, depth, TerminalEnd(names, chain)) then
              Link(names, chain, s, |chain| - 1)
            else NULL_RAW
    decreases |chain| - i
  {
    if i < |chain| - 1 {
      StringAlongChain(names, chain, s, i + 1, idx, depth + 1);
    }
  }

  /** An unparsable string that is resolved no further stays as it is. */
  lemma {:induction false} FinalStaysPlain(names: Names, r: Raw, count: nat, idx: nat, depth: nat)
    requires Targeted(names) && r.text != "" && (r.terminal || r.text !in names)
    requires depth < RESOLVE_MAX_DEPTH && count >= 1 && (count > 1 || r.count == 1)
    ensures Resolve(names, Unparsable(r).(count := count), idx, depth) == Parsed(Unparsable(r).(count := count))
  {
  }

  /**
   * A chain of bare names resolves to its end if it has at most 14 hops, or 15 with a
   * terminal last one; otherwise the name stays as it was.
   */
  lemma {:induction false} ChainResolves(names: Names, chain: seq<string>, idx: nat)
    requires IsChain(names, chain) && Ends(names, chain)
    ensures var hops := |chain| - 1;
            Resolved(names, chain[0], idx) ==
            var end := if hops <= 14 || (hops == 15 && TerminalEnd(names, chain)) then hops else 0;
            Some(Result(Some(chain[end]), 1))
  {
    var s := Raw(Input, 0, chain[0], false, 1);
    BareIsUnparsable(s);
    StringAlongChain(names, chain, s, 0, 0, 1);
    StringAlongChain(names, chain, s, 0, idx, 1);
    var last := Link(names, chain, s, |chain| - 1);
    BareIsUnparsable(last);
    FinalStaysPlain(names, last, 1, 0, 1);
  }

  lemma {:induction false} NoEnd(names: Names, cycle: set<string>, s: Raw, idx: nat, depth: nat)
    requires Targeted(names) && s.text in cycle && !s.terminal
    requires forall x | x in cycle ::
               x in names && !names[x].terminal && |names[x].targets| == 1 && names[x].targets[0] in cycle
    ensures ResolveString(names, s, idx, depth) == NULL_RAW
    decreases if depth > RESOLVE_MAX_DEPTH then 0 else RESOLVE_MAX_DEPTH + 1 - depth
  {
    if depth <= RESOLVE_MAX_DEPTH && s.text != "" {
      NoEnd(names, cycle, TargetOf(names, s.text, idx), idx, depth + 1);
    }
  }

  /** A name on a cycle, or on a way into one, stays as it was. */
  lemma {:induction false} CycleReturnsInput(names: Names, cycle: set<string>, name: string, idx: nat)
    requires Targeted(names) && name in cycle && Bare(name)
    requires forall x | x in cycle ::
               x in names && !names[x].terminal && |names[x].targets| == 1 && names[x].targets[0] in cycle
    ensures Resolved(names, name, idx) == Some(Result(Some(name), 1))
  {
    var s := Raw(Input, 0, name, false, 1);
    BareIsUnparsable(s);
    NoEnd(names, cycle, s, 0, 1);
    NoEnd(names, cycle, s, idx, 1);
  }

  /**
   * A list of bare strings that are resolved no further: the count is its length, and an
   * index past it means the first.
   */
  lemma {:induction false} ListIsIndexed(names: Names, name: string, idx: nat)
    requires Targeted(names) && name in names && Bare(name) && |names[name].targets| >= 2
    requires forall x | x in names[name].targets :: Bare(x) && (names[name].terminal || x !in names)
    ensures var targets := names[name].targets;
            Resolved(names, name, idx) == Some(Result(Some(targets[if idx < |targets| then idx else 0]), |targets|))
  {
    var s := Raw(Input, 0, name, false, 1);
    BareIsUnparsable(s);
    var first, r := TargetOf(names, name, 0), TargetOf(names, name, idx);
    assert first.text in names[name].targets && r.text in names[name].targets;
    assert ResolveString(names, s, 0, 1) == first by { assert ResolveString(names, first, 0, 2) == first; }
    assert ResolveString(names, s, idx, 1) == r by { assert ResolveString(names, r, idx, 2) == r; }
    BareIsUnparsable(r);
    FinalStaysPlain(names, r, r.count, 0, 1);
  }

  // ---- Paths ----

  /** A name that has just been set stands for its targets, whatever it stood for before. */
  lemma {:induction false} SetStandsForTargets(names: Names, name: string, targets: seq<string>, terminal: bool,
                                               idx: nat)
    requires Targeted(names) && Bare(name) && targets != []
    requires forall x | x in targets :: Bare(x) && (terminal || (x !in names && x != name))
    ensures Resolved(names[name := Name(targets, terminal)], name, idx) ==
            Some(Result(Some(targets[if idx < |targets| then idx else 0]), |targets|))
  {
    var names' := names[name := Name(targets, terminal)];
    if |targets| == 1 {
      assert targets[0] in targets && targets == [targets[0]];
      ChainResolves(names', [name, targets[0]], idx);
    } else {
      ListIsIndexed(names', name, idx);
    }
  }

  /** A name that has been deleted stands for itself. */
  lemma {:induction false} DeletedStandsForItself(names: Names, name: string, idx: nat)
    requires Targeted(names) && Bare(name)
    ensures Resolved(names - {name}, name, idx) == Some(Result(Some(name), 1))
  {
    ChainResolves(names - {name}, [name], idx);
  }

  /**
   * A name is set to a list, resolved, deleted and resolved again: it stands for its
   * targets, in order, and then for itself.
   */
  method SetAndDelete(table: NameTable, name: string, list: string, terminal: bool, idx: nat)
      returns (whenSet: Option<Result>, whenDeleted: Option<Result>)
    requires table.Valid() && Bare(name) && !Blank(list)
    requires forall x | x in Targets("", list) :: Bare(x) && (terminal || (x !in table.names && x != name))
    modifies table
    ensures table.names == old(table.names) - {name}
    ensures var ts := Targets("", list);
            ts != [] && whenSet == Some(Result(Some(ts[if idx < |ts| then idx else 0]), |ts|))
    ensures whenDeleted == Some(Result(Some(name), 1))
  {
    NothingIsFound(list);
    SetStandsForTargets(table.names, name, Targets("", list), terminal, idx);
    DeletedStandsForItself(table.names, name, idx);
    var error := table.Set(name, list, terminal);
    whenSet := table.ResolveName(name, idx);
    table.Delete(name);
    assert table.names == old(table.names) - {name};
    whenDeleted := table.ResolveName(name, idx);
  }

  /** No character that parse_string acts upon. */
  predicate Plain(s: string) {
    forall i | 0 <= i < |s| :: s[i] != ':' && s[i] != '[' && s[i] != ']'
  }

  predicate PlainDir(s: string) {
    Plain(s) && forall i | 0 <= i < |s| :: s[i] != '.'
  }

  function Join(dirs: seq<string>): (r: string)
    ensures dirs != [] ==> |dirs[|dirs| - 1]| <= |r|
  {
    if dirs == [] then ""
    else if |dirs| == 1 then dirs[0]
    else Join(dirs[..|dirs| - 1]) + "." + dirs[|dirs| - 1]
  }

  function PathText(device: string, dirs: seq<string>, filename: string): string {
    device + ":" + ((if dirs != [] then "[" + Join(dirs) + "]" else "") + filename)
  }

  /** Nothing happens between `i` and `j`. */
  lemma {:induction false} ScanSkips(s: Raw, i: nat, j: nat)
    requires i <= j <= |s.text| && ScanOf(s, i).Next?
    requires forall k | i <= k < j :: s.text[k] != ':' && s.text[k] != '[' && s.text[k] != ']'
    requires ScanOf(s, i).scan.open.None? || ScanOf(s, i).scan.close.Some? || forall k | i <= k < j :: s.text[k] != '.'
    ensures ScanOf(s, j) == ScanOf(s, i)
    decreases j
  {
    if i < j {
      ScanSkips(s, i, j - 1);
    }
  }

  /** The directories of a text that start at `base`. */
  function DirParts(s: Raw, base: nat, dirs: seq<string>): seq<Raw> {
    if dirs == [] then [] else
    var n := |dirs| - 1;
    DirParts(s, base, dirs[..n]) + [DirPart(s, base, dirs)]
  }

  /** The last of the directories that start at `base`. */
  function DirPart(s: Raw, base: nat, dirs: seq<string>): Raw
    requires dirs != []
  {
    Raw(s.buffer, s.at + base + |Join(dirs)| - |dirs[|dirs| - 1]|, dirs[|dirs| - 1], false, 1)
  }

  lemma {:induction false} JoinEnds(dirs: seq<string>)
    requires dirs != []
    ensures Join(dirs)[|Join(dirs)| - |dirs[|dirs| - 1]|..] == dirs[|dirs| - 1]
  {
  }

  /** A stretch of plain text changes nothing. */
  lemma {:induction false} ScanOver(s: Raw, i: nat, j: nat, text: string)
    requires i <= j <= |s.text| && s.text[i..j] == text && Plain(text) && ScanOf(s, i).Next?
    requires ScanOf(s, i).scan.open.None? || ScanOf(s, i).scan.close.Some? || PlainDir(text)
    ensures ScanOf(s, j) == ScanOf(s, i)
  {
    assert forall k | i <= k < j :: s.text[k] == text[k - i];
    ScanSkips(s, i, j);
  }

  /** Where the last of several directories is, and the dot before it. */
  lemma {:induction false} LastDir(s: Raw, base: nat, dirs: seq<string>)
    requires |dirs| >= 2 && base + |Join(dirs)| <= |s.text| && s.text[base..base + |Join(dirs)|] == Join(dirs)
    ensures var n := |dirs| - 1; var p := base + |Join(dirs[..n])|;
            && p + 1 + |dirs[n]| == base + |Join(dirs)|
            && s.text[base..p] == Join(dirs[..n]) && s.text[p] == '.' && s.text[p + 1..base + |Join(dirs)|] == dirs[n]
  {
    var n := |dirs| - 1;
    var front, t := Join(dirs[..n]), s.text[base..base + |Join(dirs)|];
    assert t == front + "." + dirs[n];
    assert t[..|front|] == front && t[|front|] == '.' && t[|front| + 1..] == dirs[n];
  }

  lemma {:induction false} ScanDirs(s: Raw, colon: nat, base: nat, dirs: seq<string>)
    requires dirs != [] && |dirs| <= MAX_DIR_DEPTH + 1 && (forall i | 0 <= i < |dirs| :: PlainDir(dirs[i]))
    requires 0 < base && base + |Join(dirs)| <= |s.text| && s.text[base..base + |Join(dirs)|] == Join(dirs)
    requires ScanOf(s, base) == Next(Scan(Some(colon), Some(base - 1), None, base, []))
    ensures ScanOf(s, base + |Join(dirs)|) ==
            Next(Scan(Some(colon), Some(base - 1), None, base + |Join(dirs)| - |dirs[|dirs| - 1]|,
                      DirParts(s, base, dirs[..|dirs| - 1])))
  {
    var n, end := |dirs| - 1, base + |Join(dirs)|;
    if n == 0 {
      ScanOver(s, base, end, dirs[0]);
    } else {
      var front := dirs[..n];
      var p := base + |Join(front)|;
      LastDir(s, base, dirs);
      ScanDirs(s, colon, base, front);
      DotAfterDir(s, colon, base, front);
      ScanOver(s, p + 1, end, dirs[n]);
    }
  }

  lemma {:induction false} DotAfterDir(s: Raw, colon: nat, base: nat, dirs: seq<string>)
    requires dirs != [] && |dirs| <= MAX_DIR_DEPTH && 0 < base
    requires base + |Join(dirs)| < |s.text| && s.text[base..base + |Join(dirs)|] == Join(dirs)
             && s.text[base + |Join(dirs)|] == '.'
    requires ScanOf(s, base + |Join(dirs)|) ==
             Next(Scan(Some(colon), Some(base - 1), None, base + |Join(dirs)| - |dirs[|dirs| - 1]|,
                       DirParts(s, base, dirs[..|dirs| - 1])))
    ensures ScanOf(s, base + |Join(dirs)| + 1) ==
            Next(Scan(Some(colon), Some(base - 1), None, base + |Join(dirs)| + 1, DirParts(s, base, dirs)))
  {
    DirAdded(s, base, dirs, ScanOf(s, base + |Join(dirs)|).scan);
  }

  lemma {:induction false} DirAdded(s: Raw, base: nat, dirs: seq<string>, scan: Scan)
    requires dirs != [] && |dirs| <= MAX_DIR_DEPTH
    requires base + |Join(dirs)| < |s.text| && s.text[base..base + |Join(dirs)|] == Join(dirs)
    requires ScanOk(s, base + |Join(dirs)|, scan) && scan.open.Some?
    requires scan.last == base + |Join(dirs)| - |dirs[|dirs| - 1]| && scan.dirs == DirParts(s, base, dirs[..|dirs| - 1])
    ensures WithDir(s, base + |Join(dirs)|, scan) == Next(scan.(dirs := DirParts(s, base, dirs)))
  {
    PartIs(s, base, dirs);
    PartsCount(s, base, dirs[..|dirs| - 1]);
  }

  lemma {:induction false} PartsCount(s: Raw, base: nat, dirs: seq<string>)
    ensures |DirParts(s, base, dirs)| == |dirs|
  {
    if dirs != [] {
      PartsCount(s, base, dirs[..|dirs| - 1]);
    }
  }

  lemma {:induction false} PartIs(s: Raw, base: nat, dirs: seq<string>)
    requires dirs != [] && base + |Join(dirs)| <= |s.text| && s.text[base..base + |Join(dirs)|] == Join(dirs)
    ensures Part(s, base + |Join(dirs)| - |dirs[|dirs| - 1]|, base + |Join(dirs)|) == DirPart(s, base, dirs)
    ensures DirParts(s, base, dirs) == DirParts(s, base, dirs[..|dirs| - 1]) + [DirPart(s, base, dirs)]
  {
    var end, last := base + |Join(dirs)|, dirs[|dirs| - 1];
    JoinEnds(dirs);
    assert s.text[end - |last|..end] == s.text[base..end][|Join(dirs)| - |last|..];
  }

  /** The components of a path text. */
  function PathParts(s: Raw, device: string, dirs: seq<string>, filename: string): Components {
    var base := |device| + 2;
    var at := if dirs == [] then |device| + 1 else base + |Join(dirs)| + 1;
    Components(NULL_RAW, Raw(s.buffer, s.at, device, false, 1), DirParts(s, base, dirs),
               if filename == "" then NULL_RAW else Raw(s.buffer, s.at + at, filename, false, 1), 1)
  }

  /** Where the pieces of a path with directories are. */
  ghost predicate Laid(text: string, device: string, joined: string, filename: string) {
    forall open {:trigger LaidIf(open, text, device, joined, filename)} :: LaidIf(open, text, device, joined, filename)
  }

  ghost predicate LaidIf(open: bool, text: string, device: string, joined: string, filename: string) {
    open ==>
    var base := |device| + 2; var close := base + |joined|;
    && close + 1 + |filename| == |text|
    && text[0..|device|] == device && text[|device|] == ':' && text[base - 1] == '['
    && text[base..close] == joined && text[close] == ']' && text[close + 1..|text|] == filename
  }

  lemma {:induction false} PathIsLaid(device: string, joined: string, filename: string)
    ensures Laid(device + ":" + ("[" + joined + "]" + filename), device, joined, filename)
  {
    var rest := "[" + joined + "]" + filename;
    var text := device + ":" + rest;
    assert text[|device| + 1..] == rest;
    assert text[|device| + 2..][..|joined|] == rest[1..][..|joined|];
    assert rest[1..][..|joined|] == joined;
    assert text[0..|device|] == device;
    assert text[|device| + 3 + |joined|..|text|] == filename;
  }

  lemma {:induction false} DeviceScan(s: Raw, device: string)
    requires Plain(device) && |device| < |s.text| && s.text[0..|device|] == device && s.text[|device|] == ':'
    ensures ScanOf(s, |device| + 1) == Next(Scan(Some(|device|), None, None, 0, []))
  {
    ScanOver(s, 0, |device|, device);
  }

  lemma {:induction false} DeviceAndOpen(s: Raw, device: string, base: nat)
    requires Plain(device) && base == |device| + 2 <= |s.text|
    requires s.text[0..|device|] == device && s.text[|device|] == ':' && s.text[base - 1] == '['
    ensures ScanOf(s, base) == Next(Scan(Some(|device|), Some(base - 1), None, base, []))
  {
    DeviceScan(s, device);
  }

  lemma {:induction false} PathWithoutDirs(s: Raw, device: string, filename: string)
    requires Plain(device) && Plain(filename) && s.text == device + ":" + filename
    ensures ParsedString(s) == Parsed(PathParts(s, device, [], filename))
  {
    assert s.text[0..|device|] == device && s.text[|device| + 1..|s.text|] == filename;
    DeviceScan(s, device);
    ScanOver(s, |device| + 1, |s.text|, filename);
  }

  lemma {:induction false} PathWithDirs(s: Raw, device: string, dirs: seq<string>, filename: string)
    requires Plain(device) && Plain(filename) && dirs != [] && |dirs| <= MAX_DIR_DEPTH
    requires (forall i | 0 <= i < |dirs| :: PlainDir(dirs[i])) && Laid(s.text, device, Join(dirs), filename)
    ensures ParsedString(s) == Parsed(PathParts(s, device, dirs, filename))
  {
    DeviceToClose(s, device, dirs, filename);
    CloseToEnd(s, device, dirs, filename, |device| + 2 + |Join(dirs)| + 1);
  }

  lemma {:induction false} DeviceToClose(s: Raw, device: string, dirs: seq<string>, filename: string)
    requires Plain(device) && dirs != [] && |dirs| <= MAX_DIR_DEPTH && (forall i | 0 <= i < |dirs| :: PlainDir(dirs[i]))
    requires Laid(s.text, device, Join(dirs), filename)
    ensures Closed(s, |device|, |device| + 2, dirs, |device| + 2 + |Join(dirs)| + 1)
  {
    assert LaidIf(true, s.text, device, Join(dirs), filename);
    var base := |device| + 2;
    DeviceAndOpen(s, device, base);
    DirsAndClose(s, |device|, base, dirs, base + |Join(dirs)| + 1);
  }

  /** After the closing bracket, at `i`, everything is known but the file name. */
  ghost predicate Closed(s: Raw, colon: nat, base: nat, dirs: seq<string>, i: nat) {
    forall open {:trigger ClosedIf(open, s, colon, base, dirs, i)} :: ClosedIf(open, s, colon, base, dirs, i)
  }

  ghost predicate ClosedIf(open: bool, s: Raw, colon: nat, base: nat, dirs: seq<string>, i: nat) {
    open ==>
    && 0 < base <= i <= |s.text|
    && var r := ScanOf(s, i);
       && r.Next? && r.scan.colon == Some(colon) && r.scan.open == Some(base - 1)
       && r.scan.close == Some(base + |Join(dirs)|) && r.scan.dirs == DirParts(s, base, dirs)
  }

  lemma {:induction false} DirsAndClose(s: Raw, colon: nat, base: nat, dirs: seq<string>, i: nat)
    requires dirs != [] && |dirs| <= MAX_DIR_DEPTH && (forall k | 0 <= k < |dirs| :: PlainDir(dirs[k]))
    requires 0 < base && i == base + |Join(dirs)| + 1 <= |s.text| && s.text[i - 1] == ']'
    requires s.text[base..base + |Join(dirs)|] == Join(dirs)
    requires ScanOf(s, base) == Next(Scan(Some(colon), Some(base - 1), None, base, []))
    ensures Closed(s, colon, base, dirs, i)
  {
    ScanDirs(s, colon, base, dirs);
    CloseAfterDir(s, colon, base, dirs);
  }

  lemma {:induction false} CloseToEnd(s: Raw, device: string, dirs: seq<string>, filename: string, i: nat)
    requires Plain(filename) && dirs != [] && Laid(s.text, device, Join(dirs), filename)
    requires i == |device| + 2 + |Join(dirs)| + 1 && Closed(s, |device|, |device| + 2, dirs, i)
    ensures ParsedString(s) == Parsed(PathParts(s, device, dirs, filename))
  {
    assert ClosedIf(true, s, |device|, |device| + 2, dirs, i);
    assert LaidIf(true, s.text, device, Join(dirs), filename);
    ScanOver(s, i, |s.text|, filename);
    FinishedIs(s, device, dirs, filename);
  }

  lemma {:induction false} FinishedIs(s: Raw, device: string, dirs: seq<string>, filename: string)
    requires dirs != [] && Laid(s.text, device, Join(dirs), filename)
    requires var r := ScanOf(s, |s.text|); var base := |device| + 2;
             && r.Next? && r.scan.colon == Some(|device|) && r.scan.open == Some(base - 1)
             && r.scan.close == Some(base + |Join(dirs)|) && r.scan.dirs == DirParts(s, base, dirs)
    ensures ParsedString(s) == Parsed(PathParts(s, device, dirs, filename))
  {
    assert LaidIf(true, s.text, device, Join(dirs), filename);
  }

  lemma {:induction false} CloseAfterDir(s: Raw, colon: nat, base: nat, dirs: seq<string>)
    requires dirs != [] && |dirs| <= MAX_DIR_DEPTH && 0 < base
    requires base + |Join(dirs)| < |s.text| && s.text[base..base + |Join(dirs)|] == Join(dirs)
             && s.text[base + |Join(dirs)|] == ']'
    requires ScanOf(s, base + |Join(dirs)|) ==
             Next(Scan(Some(colon), Some(base - 1), None, base + |Join(dirs)| - |dirs[|dirs| - 1]|,
                       DirParts(s, base, dirs[..|dirs| - 1])))
    ensures var r := ScanOf(s, base + |Join(dirs)| + 1);
            && r.Next? && r.scan.colon == Some(colon) && r.scan.open == Some(base - 1)
            && r.scan.close == Some(base + |Join(dirs)|) && r.scan.dirs == DirParts(s, base, dirs)
  {
    DirAdded(s, base, dirs, ScanOf(s, base + |Join(dirs)|).scan);
  }

  /** A path text is taken apart into just what it was made of. */
  lemma {:induction false} PathParses(s: Raw, device: string, dirs: seq<string>, filename: string)
    requires Plain(device) && Plain(filename) && |dirs| <= MAX_DIR_DEPTH
    requires (forall i | 0 <= i < |dirs| :: PlainDir(dirs[i])) && s.text == PathText(device, dirs, filename)
    ensures ParsedString(s) == Parsed(PathParts(s, device, dirs, filename))
  {
    if dirs == [] {
      assert s.text == device + ":" + filename;
      PathWithoutDirs(s, device, filename);
    } else {
      PathIsLaid(device, Join(dirs), filename);
      PathWithDirs(s, device, dirs, filename);
    }
  }

  lemma {:induction false} JoinPrefix(dirs: seq<string>, k: nat)
    requires k <= |dirs|
    ensures |Join(dirs[..k])| <= |Join(dirs)| && Join(dirs)[..|Join(dirs[..k])|] == Join(dirs[..k])
    ensures 0 < k < |dirs| ==> |Join(dirs[..k])| < |Join(dirs)| && Join(dirs)[|Join(dirs[..k])|] == '.'
    decreases |dirs|
  {
    if k < |dirs| {
      var front := dirs[..|dirs| - 1];
      assert front[..k] == dirs[..k];
      JoinPrefix(front, k);
      assert Join(dirs)[..|Join(front)|] == Join(front);
    } else {
      assert dirs[..k] == dirs;
    }
  }

  /** With more than 25 directories parsing runs past its array. */
  lemma {:induction false} PathOverruns(s: Raw, device: string, dirs: seq<string>, filename: string)
    requires Plain(device) && |dirs| > MAX_DIR_DEPTH && (forall i | 0 <= i < |dirs| :: PlainDir(dirs[i]))
    requires s.text == PathText(device, dirs, filename)
    ensures ParsedString(s) == Undefined
  {
    var base, few := |device| + 2, dirs[..MAX_DIR_DEPTH + 1];
    PathIsLaid(device, Join(dirs), filename);
    FewAreLaid(s.text, device, dirs, filename);
    DeviceAndOpen(s, device, base);
    ScanDirs(s, |device|, base, few);
    OneTooMany(s, |device|, base, few, base + |Join(few)|);
  }

  /** The first 26 directories are followed by a dot or the closing bracket. */
  lemma {:induction false} FewAreLaid(text: string, device: string, dirs: seq<string>, filename: string)
    requires |dirs| > MAX_DIR_DEPTH && Laid(text, device, Join(dirs), filename)
    ensures var base, few := |device| + 2, dirs[..MAX_DIR_DEPTH + 1]; var p := base + |Join(few)|;
            && p < |text| && text[0..|device|] == device && text[|device|] == ':' && text[base - 1] == '['
            && text[base..p] == Join(few) && (text[p] == '.' || text[p] == ']')
  {
    var base, few := |device| + 2, dirs[..MAX_DIR_DEPTH + 1];
    var p := base + |Join(few)|;
    assert LaidIf(true, text, device, Join(dirs), filename);
    JoinPrefix(dirs, MAX_DIR_DEPTH + 1);
    assert few == dirs ==> text[p] == ']';
    assert text[base..p] == text[base..base + |Join(dirs)|][..|Join(few)|];
    assert |dirs| > |few| ==> text[p] == text[base..base + |Join(dirs)|][|Join(few)|];
  }

  lemma {:induction false} OneTooMany(s: Raw, colon: nat, base: nat, dirs: seq<string>, p: nat)
    requires |dirs| == MAX_DIR_DEPTH + 1 && 0 < base && p == base + |Join(dirs)| < |s.text|
             && (s.text[p] == '.' || s.text[p] == ']')
    requires ScanOf(s, p) == Next(Scan(Some(colon), Some(base - 1), None, p - |dirs[|dirs| - 1]|,
             DirParts(s, base, dirs[..|dirs| - 1])))
    ensures ParsedString(s) == Undefined
  {
    PartsCount(s, base, dirs[..|dirs| - 1]);
    Stopped(s, p + 1, |s.text|);
  }

  lemma {:induction false} JoinedParts(s: Raw, base: nat, dirs: seq<string>)
    ensures |DirParts(s, base, dirs)| == |dirs|
    ensures forall i | 0 <= i < |dirs| ::
              DirParts(s, base, dirs)[i].text == dirs[i] && !DirParts(s, base, dirs)[i].terminal
  {
    if dirs != [] {
      JoinedParts(s, base, dirs[..|dirs| - 1]);
    }
  }

  lemma {:induction false} JoinedTexts(parts: seq<Raw>, dirs: seq<string>)
    requires |parts| == |dirs| && forall i | 0 <= i < |dirs| :: parts[i].text == dirs[i]
    ensures JoinedDirs(parts) == Join(dirs)
  {
    if |dirs| > 1 {
      JoinedTexts(parts[..|dirs| - 1], dirs[..|dirs| - 1]);
    }
  }

  /** Serializing the components of a path gives its text back. */
  lemma {:induction false} SerializeGivesBack(c: Components, device: string, dirs: seq<string>, filename: string)
    requires Plain(device) && device != "" && c.unparsable.text == ""
    requires c.device.text == device && c.filename.text == filename
    requires |c.dirs| == |dirs| && forall i | 0 <= i < |dirs| :: c.dirs[i].text == dirs[i]
    ensures Serialized(c) == Some(PathText(device, dirs, filename))
  {
    JoinedTexts(c.dirs, dirs);
    assert device[|device| - 1] != ':';
    var tail := (if dirs != [] then "[" + Join(dirs) + "]" else "") + filename;
    assert device + ":" + (if dirs != [] then "[" + Join(dirs) + "]" else "") + filename == device + ":" + tail;
  }

  /** Nothing in the path is a name: not the device, with or without its colon, nor a directory, nor the file. */
  predicate NoNames(names: Names, device: string, dirs: seq<string>, filename: string) {
    && device !in names && device + ":" !in names && filename !in names
    && forall i | 0 <= i < |dirs| :: dirs[i] !in names
  }

  /** A path of at most 25 directories in which nothing is a name resolves to itself. */
  lemma {:induction false} PathResolvesToItself(names: Names, device: string, dirs: seq<string>, filename: string,
                                                idx: nat)
    requires Targeted(names) && NoNames(names, device, dirs, filename)
    requires Plain(device) && device != "" && Plain(filename) && |dirs| <= MAX_DIR_DEPTH
    requires forall i | 0 <= i < |dirs| :: PlainDir(dirs[i])
    ensures Resolved(names, PathText(device, dirs, filename), idx)
            == Some(Result(Some(PathText(device, dirs, filename)), 1))
  {
    var s := Raw(Input, 0, PathText(device, dirs, filename), false, 1);
    PathParses(s, device, dirs, filename);
    var path := PathParts(s, device, dirs, filename);
    PathNameless(names, s, device, dirs, filename);
    NamelessResolves(names, path, idx);
    SerializeGivesBack(Substituted(names, path, 1), device, dirs, filename);
  }

  lemma {:induction false} PathNameless(names: Names, s: Raw, device: string, dirs: seq<string>, filename: string)
    requires Targeted(names) && NoNames(names, device, dirs, filename) && device != ""
    ensures var path := PathParts(s, device, dirs, filename);
            && Nameless(names, path) && path.filename.text == filename && |path.dirs| == |dirs|
            && forall i | 0 <= i < |dirs| :: path.dirs[i].text == dirs[i]
  {
    JoinedParts(s, |device| + 2, dirs);
  }

  lemma {:induction false} NamelessResolves(names: Names, path: Components, idx: nat)
    requires Nameless(names, path)
    ensures var once := Substituted(names, path, 1);
            && Resolve(names, path, idx, 0) == Parsed(once)
            && once.unparsable == NULL_RAW && once.count == 1
            && once.device == path.device && once.filename.text == path.filename.text && |once.dirs| == |path.dirs|
            && forall i | 0 <= i < |path.dirs| :: once.dirs[i].text == path.dirs[i].text
  {
    OnePass(names, path, idx, 0);
    var once := Substituted(names, path, 1);
    if !SamePath(path, once) {
      OnePass(names, once, idx, 1);
      Settles(names, path, 1, 2);
    }
  }

  /** Parts that are no names stay, but an empty one becomes the null string. */
  ghost predicate Nameless(names: Names, path: Components) {
    && Targeted(names) && path.unparsable == NULL_RAW && path.count == 1
    && path.device.text != "" && path.device.text !in names && path.device.text + ":" !in names && !path.device.terminal
    && path.device.count == 1
    && !path.filename.terminal && path.filename.text !in names
    && forall i | 0 <= i < |path.dirs| :: !path.dirs[i].terminal && path.dirs[i].text !in names
  }

  lemma {:induction false} OnePass(names: Names, path: Components, idx: nat, depth: nat)
    requires Nameless(names, path) && depth < RESOLVE_MAX_DEPTH - 1
    ensures var next := Substituted(names, path, depth + 1);
            && Nameless(names, next)
            && |next.dirs| == |path.dirs|
            && (forall i | 0 <= i < |path.dirs| :: next.dirs[i].text == path.dirs[i].text)
            && next.device == path.device && next.filename.text == path.filename.text
            && Resolve(names, path, idx, depth)
               == if SamePath(path, next) then Parsed(next) else Resolve(names, next, idx, depth + 1)
  {
    var withColon := path.device.(text := path.device.text + ":");
    assert ResolveString(names, withColon, 0, depth + 1) == withColon
           && ResolveString(names, withColon, idx, depth + 1) == withColon;
    assert ResolveDevice(names, path.device, 0, depth + 1) == path.device;
    assert ResolveDevice(names, path.device, idx, depth + 1) == path.device;
    assert path.(count := 1) == path;
  }

  lemma {:induction false} Settles(names: Names, path: Components, depth: nat, depth': nat)
    requires Nameless(names, path) && depth < RESOLVE_MAX_DEPTH && depth' < RESOLVE_MAX_DEPTH
    ensures var once := Substituted(names, path, depth); Substituted(names, once, depth') == once
  {
    var once := Substituted(names, path, depth);
    forall i | 0 <= i < |path.dirs| ensures ResolveString(names, once.dirs[i], 0, depth') == once.dirs[i] {
    }
    assert Substituted(names, once, depth').dirs == once.dirs;
  }
}
