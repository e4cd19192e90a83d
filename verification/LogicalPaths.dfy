// Paths whose device is a logical name: the names that are replaced on the way to a
// device that is none, the directories and the file that each of them adds, and what
// the directories and the file stand for.
module LogicalPaths {
  import opened Options
  import opened LogicalNames

  /** A path: a device, directories and a file, which may be missing. */
  datatype Hop = Hop(device: string, dirs: seq<string>, filename: string) {
    function Text(): string { PathText(device, dirs, filename) }

    predicate Valid() {
      && Plain(device) && device != "" && Plain(filename) && |dirs| <= MAX_DIR_DEPTH
      && forall i | 0 <= i < |dirs| :: PlainDir(dirs[i])
    }
  }

  // ---- What directories and files stand for ----

  const DONE: int := -1

  /** A text resolves to another along at most `hops` names; the empty one stays empty. */
  ghost predicate Leads(names: Names, x: string, y: string, hops: int) {
    || (x == "" && y == "")
    || exists chain :: IsChain(names, chain) && Ends(names, chain) && chain[0] == x && chain[|chain| - 1] == y
                       && |chain| - 1 <= hops
  }

  /** A text that is no name stands for itself. */
  lemma {:induction false} LeadsToItself(names: Names, x: string, hops: nat)
    requires Targeted(names) && x !in names && (x == "" || Bare(x))
    ensures Leads(names, x, x, hops)
  {
    if x != "" {
      var chain := [x];
      assert IsChain(names, chain) && Ends(names, chain);
    }
  }

  /** A raw string that is resolved no further: its text is `y`. */
  predicate Done(names: Names, r: Raw, y: string) {
    r.text == y && (r == NULL_RAW || r.terminal || (y != "" && y !in names))
  }

  /** A raw string that has been resolved to `y` - a negative number stands for that - or is to be in at most `hops`. */
  ghost predicate Known(names: Names, r: Raw, y: string, hops: int) {
    Done(names, r, y) || (hops >= 0 && !r.terminal && Leads(names, r.text, y, hops))
  }

  lemma {:induction false} DoneStays(names: Names, r: Raw, y: string, depth: nat)
    requires Targeted(names) && Done(names, r, y) && depth <= RESOLVE_MAX_DEPTH
    ensures ResolveString(names, r, 0, depth) == r
  {
  }

  lemma {:induction false} KnownGetsDone(names: Names, r: Raw, y: string, hops: int, depth: nat)
    requires Targeted(names) && Known(names, r, y, hops) && hops + depth <= RESOLVE_MAX_DEPTH
    requires depth <= RESOLVE_MAX_DEPTH
    ensures Done(names, ResolveString(names, r, 0, depth), y)
  {
    if Done(names, r, y) {
      DoneStays(names, r, y, depth);
    } else if r.text != "" {
      var chain :| IsChain(names, chain) && Ends(names, chain) && chain[0] == r.text && chain[|chain| - 1] == y
                   && |chain| - 1 <= hops;
      StringAlongChain(names, chain, r, 0, 0, depth);
      LastIsDone(names, chain, r);
    }
  }

  lemma {:induction false} LastIsDone(names: Names, chain: seq<string>, r: Raw)
    requires IsChain(names, chain) && Ends(names, chain) && chain[0] == r.text && !r.terminal
    ensures Done(names, Link(names, chain, r, |chain| - 1), chain[|chain| - 1])
  {
    assert Bare(chain[|chain| - 1]);
  }

  // ---- Turns of the resolution ----

  /** The resolution of `c` at a depth has the result `e`. */
  ghost predicate ResolvesTo(names: Names, idx: nat, c: Components, depth: nat, e: Components)
    requires Targeted(names)
  {
    forall open {:trigger ResolvesToIf(open, names, idx, c, depth, e)} :: ResolvesToIf(open, names, idx, c, depth, e)
  }

  ghost predicate ResolvesToIf(open: bool, names: Names, idx: nat, c: Components, depth: nat, e: Components)
    requires Targeted(names)
  {
    open ==> Resolve(names, c, idx, depth) == Parsed(e)
  }

  /** One turn of it leads to the resolution of `c'` one deeper. */
  ghost predicate TurnsTo(names: Names, idx: nat, c: Components, depth: nat, c': Components)
    requires Targeted(names)
  {
    forall open {:trigger TurnsToIf(open, names, idx, c, depth, c')} :: TurnsToIf(open, names, idx, c, depth, c')
  }

  ghost predicate TurnsToIf(open: bool, names: Names, idx: nat, c: Components, depth: nat, c': Components)
    requires Targeted(names)
  {
    open ==> Resolve(names, c, idx, depth) == Resolve(names, c', idx, depth + 1)
  }

  lemma {:induction false} TurnThenResult(names: Names, idx: nat, c: Components, depth: nat, c': Components,
                                          e: Components)
    requires Targeted(names) && TurnsTo(names, idx, c, depth, c') && ResolvesTo(names, idx, c', depth + 1, e)
    ensures ResolvesTo(names, idx, c, depth, e)
  {
    assert TurnsToIf(true, names, idx, c, depth, c') && ResolvesToIf(true, names, idx, c', depth + 1, e);
  }

  // ---- One name on the way ----

  /** The name that a device is: with its colon if there is such a one. */
  function Key(names: Names, device: string): string {
    if device + ":" in names then device + ":" else device
  }

  /** Which target of a list is taken: that of the index in the first list, and the first one in others. */
  function Chosen(targets: seq<string>, count: nat, idx: nat): nat {
    if |targets| > 1 && count == 1 && idx < |targets| then idx else 0
  }

  function Counted(targets: seq<string>, count: nat): nat {
    if |targets| > 1 && count == 1 then |targets| else count
  }

  /** A device that is a name, none of whose targets is one. */
  predicate IsName(names: Names, device: string) {
    var key := Key(names, device);
    key in names && names[key].targets != [] && forall t | t in names[key].targets :: t != "" && t !in names
  }

  lemma {:induction false} DeviceIsTarget(names: Names, s: Raw, i: nat, depth: nat)
    requires Targeted(names) && IsName(names, s.text) && !s.terminal && s.text != "" && depth < RESOLVE_MAX_DEPTH
    requires s.buffer.Target? ==> s.buffer.name != Key(names, s.text)
    ensures ResolveDevice(names, s, i, depth) == TargetOf(names, Key(names, s.text), i)
    ensures !Same(TargetOf(names, Key(names, s.text), i), s)
  {
    var key := Key(names, s.text);
    var withColon, t := s.(text := s.text + ":"), TargetOf(names, key, i);
    assert t.text in names[key].targets;
    assert ResolveString(names, t, i, depth + 1) == t;
    if key == s.text {
      assert ResolveString(names, withColon, i, depth) == withColon;
    }
  }

  /** The parts of a path in a target. */
  ghost predicate PartsOf(parts: Components, t: Raw, hop: Hop) {
    && parts.device == Raw(t.buffer, t.at, hop.device, false, 1) && |parts.dirs| == |hop.dirs|
    && (forall i | 0 <= i < |hop.dirs| :: parts.dirs[i].text == hop.dirs[i] && !parts.dirs[i].terminal)
    && parts.filename.text == hop.filename && !parts.filename.terminal
    && (hop.filename == "" ==> parts.filename == NULL_RAW)
  }

  lemma {:induction false} PartsAre(t: Raw, hop: Hop) returns (parts: Components)
    requires hop.Valid() && t.text == hop.Text()
    ensures PartsOf(parts, t, hop) && ParsedString(t) == Parsed(parts) && parts.unparsable == NULL_RAW
    ensures parts.count == 1
  {
    PathParses(t, hop.device, hop.dirs, hop.filename);
    JoinedParts(t, |hop.device| + 2, hop.dirs);
    parts := PathParts(t, hop.device, hop.dirs, hop.filename);
  }

  /** A path with the parts of a target in front of what is there. */
  function Behind(parts: Components, path: Components): Components {
    path.(dirs := parts.dirs + path.dirs, device := parts.device,
          filename := if parts.filename.text != "" then parts.filename else path.filename)
  }

  lemma {:induction false} TargetReplaces(path: Components, t: Raw, hop: Hop) returns (parts: Components)
    requires hop.Valid() && t.text == hop.Text() && |hop.dirs| + |path.dirs| <= MAX_DIR_DEPTH
    ensures PartsOf(parts, t, hop) && Replaced(path, t) == Parsed(Behind(parts, path))
  {
    parts := PartsAre(t, hop);
  }

  // ---- The way from a path to a device that is no name ----

  function CountAt(names: Names, hops: seq<Hop>, k: nat): nat
    requires k < |hops|
  {
    if k == 0 then 1
    else
      var key, count := Key(names, hops[k - 1].device), CountAt(names, hops, k - 1);
      if key in names then Counted(names[key].targets, count) else count
  }

  /** The device of each path is a name for the next one, and no name stands for a path on itself. */
  ghost predicate IsRoute(names: Names, idx: nat, hops: seq<Hop>) {
    && Targeted(names) && 1 <= |hops| <= RESOLVE_MAX_DEPTH
    && forall open {:trigger IsRouteIf(open, names, idx, hops)} :: IsRouteIf(open, names, idx, hops)
  }

  ghost predicate IsRouteIf(open: bool, names: Names, idx: nat, hops: seq<Hop>) {
    open ==>
    && (forall k | 0 <= k < |hops| :: hops[k].Valid())
    && (forall k | 0 <= k < |hops| - 1 :: LeadsOn(names, idx, hops, k))
  }

  lemma {:induction false} OnRoute(names: Names, idx: nat, hops: seq<Hop>, k: nat)
    requires IsRoute(names, idx, hops) && k < |hops|
    ensures hops[k].Valid() && (k + 1 < |hops| ==> LeadsOn(names, idx, hops, k))
  {
    assert IsRouteIf(true, names, idx, hops);
  }

  ghost predicate LeadsOn(names: Names, idx: nat, hops: seq<Hop>, k: nat)
    requires k + 1 < |hops|
  {
    && GoesTo(names, idx, hops[k].device, CountAt(names, hops, k), hops[k + 1])
    && Key(names, hops[k].device) != Key(names, hops[k + 1].device)
  }

  /** The device is a name, and the path is the text of the target that is taken. */
  ghost predicate GoesTo(names: Names, idx: nat, device: string, count: nat, hop: Hop) {
    && Key(names, device) in names
    && forall open {:trigger GoesToIf(open, names, idx, device, count, hop)} ::
         GoesToIf(open, names, idx, device, count, hop)
  }

  ghost predicate GoesToIf(open: bool, names: Names, idx: nat, device: string, count: nat, hop: Hop)
    requires Key(names, device) in names
  {
    open ==>
    && IsName(names, device)
    && var targets := names[Key(names, device)].targets; targets[Chosen(targets, count, idx)] == hop.Text()
  }

  /** The last device is no name, or 14 names have been replaced. */
  ghost predicate RouteEnds(names: Names, hops: seq<Hop>)
    requires hops != []
  {
    var last := hops[|hops| - 1].device;
    || (last !in names && last + ":" !in names)
    || (|hops| == RESOLVE_MAX_DEPTH && IsName(names, last) && !names[Key(names, last)].terminal)
  }

  /** The directories of the first paths of a route, those of the later ones in front. */
  function AllDirs(hops: seq<Hop>, k: nat): seq<string>
    requires k < |hops|
  {
    if k == 0 then hops[0].dirs else hops[k].dirs + AllDirs(hops, k - 1)
  }

  /** The file of the last of the first paths of a route that has one. */
  function FileOf(hops: seq<Hop>, values: seq<Hop>, k: nat): string
    requires k < |hops| == |values|
  {
    if k == 0 || hops[k].filename != "" then values[k].filename else FileOf(hops, values, k - 1)
  }

  /** What the directories and files of a route stand for: enough hops are left when they are looked up. */
  ghost predicate StandFor(names: Names, hops: seq<Hop>, values: seq<Hop>) {
    |hops| == |values| && forall open {:trigger StandForIf(open, names, hops, values)} ::
      StandForIf(open, names, hops, values)
  }

  ghost predicate StandForIf(open: bool, names: Names, hops: seq<Hop>, values: seq<Hop>)
    requires |hops| == |values|
  {
    open ==> forall k | 0 <= k < |hops| :: Stands(names, hops[k], values[k], Hops(k))
  }

  lemma {:induction false} StandsAt(names: Names, hops: seq<Hop>, values: seq<Hop>, k: nat)
    requires StandFor(names, hops, values) && k < |hops|
    ensures Stands(names, hops[k], values[k], Hops(k))
  {
    assert StandForIf(true, names, hops, values);
  }

  function Hops(k: nat): int {
    RESOLVE_MAX_DEPTH - if k == 0 then 1 else k
  }

  ghost predicate Stands(names: Names, hop: Hop, value: Hop, hops: int) {
    && |value.dirs| == |hop.dirs|
    && forall open {:trigger StandsIf(open, names, hop, value, hops)} :: StandsIf(open, names, hop, value, hops)
  }

  ghost predicate StandsIf(open: bool, names: Names, hop: Hop, value: Hop, hops: int)
    requires |value.dirs| == |hop.dirs|
  {
    open ==>
    && Leads(names, hop.filename, value.filename, hops)
    && forall i | 0 <= i < |hop.dirs| :: Leads(names, hop.dirs[i], value.dirs[i], hops)
  }

  /** The first paths of a route, put together. */
  function Together(hops: seq<Hop>, values: seq<Hop>, k: nat): Hop
    requires k < |hops| == |values|
  {
    Hop(hops[k].device, AllDirs(values, k), FileOf(hops, values, k))
  }

  /** Components that are a path, or get to be it when directories and file are resolved. */
  ghost predicate Has(names: Names, c: Components, path: Hop, count: nat, left: int) {
    forall open {:trigger HasIf(open, names, c, path, count, left)} :: HasIf(open, names, c, path, count, left)
  }

  ghost predicate HasIf(open: bool, names: Names, c: Components, path: Hop, count: nat, left: int) {
    open ==>
    && c.unparsable == NULL_RAW && c.count == count
    && c.device.text == path.device && !c.device.terminal && c.device.count == 1
    && AllKnown(names, c.dirs, path.dirs, left) && Known(names, c.filename, path.filename, left)
  }

  ghost predicate AllKnown(names: Names, rs: seq<Raw>, ys: seq<string>, hops: int) {
    |rs| == |ys| && forall i | 0 <= i < |rs| :: Known(names, rs[i], ys[i], hops)
  }

  /** Substitution settles everything that is known. */
  lemma {:induction false} AllGetDone(names: Names, rs: seq<Raw>, ys: seq<string>, hops: int, depth: nat)
    requires Targeted(names) && AllKnown(names, rs, ys, hops) && hops + depth <= RESOLVE_MAX_DEPTH
    requires depth <= RESOLVE_MAX_DEPTH
    ensures forall i | 0 <= i < |rs| :: Done(names, ResolveString(names, rs[i], 0, depth), ys[i])
  {
    forall i | 0 <= i < |rs| ensures Done(names, ResolveString(names, rs[i], 0, depth), ys[i]) {
      KnownGetsDone(names, rs[i], ys[i], hops, depth);
    }
  }

  lemma {:induction false} Settled(names: Names, c: Components, path: Hop, count: nat, left: int, depth: nat)
    requires Targeted(names) && Has(names, c, path, count, left)
    requires left + depth <= RESOLVE_MAX_DEPTH && depth <= RESOLVE_MAX_DEPTH
    ensures Has(names, Substituted(names, c, depth), path, count, DONE)
  {
    assert HasIf(true, names, c, path, count, left);
    var c' := Substituted(names, c, depth);
    AllGetDone(names, c.dirs, path.dirs, left, depth);
    KnownGetsDone(names, c.filename, path.filename, left, depth);
    assert forall i | 0 <= i < |c'.dirs| :: c'.dirs[i] == ResolveString(names, c.dirs[i], 0, depth);
  }

  lemma {:induction false} NewDevice(names: Names, c: Components, idx: nat, depth: nat)
    requires Targeted(names) && IsName(names, c.device.text) && !c.device.terminal && c.device.text != ""
    requires c.device.buffer.Target? ==> c.device.buffer.name != Key(names, c.device.text)
    requires depth < RESOLVE_MAX_DEPTH
    ensures var targets := names[Key(names, c.device.text)].targets;
            var t := TargetOf(names, Key(names, c.device.text), Chosen(targets, c.count, idx));
            && Listed(c.count, ResolveDevice(names, c.device, 0, depth), ResolveDevice(names, c.device, idx, depth))
               == (Counted(targets, c.count), t)
            && !Same(t, c.device) && t.text == targets[Chosen(targets, c.count, idx)]
            && t.buffer.Target? && t.buffer.name == Key(names, c.device.text)
  {
    var key := Key(names, c.device.text);
    DeviceIsTarget(names, c.device, 0, depth);
    DeviceIsTarget(names, c.device, idx, depth);
    DeviceIsTarget(names, c.device, Chosen(names[key].targets, c.count, idx), depth);
  }

  /** What a target adds is known as far as it leads. */
  lemma {:induction false} PartsKnown(names: Names, parts: Components, t: Raw, hop: Hop, value: Hop, hops: int)
    requires PartsOf(parts, t, hop) && hops >= 0 && Stands(names, hop, value, hops)
    ensures AllKnown(names, parts.dirs, value.dirs, hops)
    ensures Known(names, parts.filename, value.filename, hops)
  {
    assert StandsIf(true, names, hop, value, hops);
    forall i | 0 <= i < |parts.dirs| ensures Known(names, parts.dirs[i], value.dirs[i], hops) {
      assert Leads(names, hop.dirs[i], value.dirs[i], hops);
    }
  }

  lemma {:induction false} KnownJoin(names: Names, rs: seq<Raw>, ys: seq<string>, rs': seq<Raw>, ys': seq<string>,
                                     left: int, hops: int)
    requires AllKnown(names, rs, ys, hops) && AllKnown(names, rs', ys', left) && (left == hops || left == DONE)
    ensures AllKnown(names, rs + rs', ys + ys', hops)
  {
    forall i | 0 <= i < |rs + rs'| ensures Known(names, (rs + rs')[i], (ys + ys')[i], hops) {
      if i >= |rs| {
        assert Known(names, rs'[i - |rs|], ys'[i - |rs|], left);
      }
    }
  }

  /** The path of a target in front of another one. */
  function InFront(hop: Hop, value: Hop, path: Hop): Hop {
    Hop(hop.device, value.dirs + path.dirs, if hop.filename != "" then value.filename else path.filename)
  }

  lemma {:induction false} FromTarget(names: Names, c: Components, path: Hop, count: nat, left: int,
                                      t: Raw, parts: Components, hop: Hop, value: Hop, count': nat, hops: nat)
    requires Has(names, c, path, count, left) && (left == hops || left == DONE)
    requires PartsOf(parts, t, hop) && Stands(names, hop, value, hops)
    ensures Has(names, Behind(parts, c.(count := count')), InFront(hop, value, path), count', hops)
  {
    assert HasIf(true, names, c, path, count, left);
    PartsKnown(names, parts, t, hop, value, hops);
    KnownJoin(names, parts.dirs, value.dirs, c.dirs, path.dirs, left, hops);
  }

  /** A device that resolves to something else: the path that this makes is resolved in its turn. */
  lemma {:induction false} OneTurn(names: Names, c: Components, idx: nat, depth: nat, count: nat, t: Raw, p: Components)
    requires Targeted(names) && c.unparsable == NULL_RAW && depth < RESOLVE_MAX_DEPTH
    requires var first := ResolveDevice(names, c.device, 0, depth + 1);
             var again := ResolveDevice(names, c.device, idx, depth + 1);
             Listed(c.count, first, again) == (count, t)
    requires !Same(t, c.device) && Replaced(c.(count := count), t) == Parsed(p) && !Same(c.device, p.device)
    ensures Resolve(names, c, idx, depth) == Resolve(names, Substituted(names, p, depth + 1), idx, depth + 1)
  {
  }

  /** The target of a device, and the path that it makes. */
  lemma {:induction false} TargetHop(names: Names, idx: nat, c: Components, path: Hop, count: nat, hop: Hop, depth: nat)
      returns (t: Raw, parts: Components)
    requires Targeted(names) && c.device.text == path.device && !c.device.terminal && c.count == count
    requires c.unparsable == NULL_RAW && depth + 1 < RESOLVE_MAX_DEPTH
    requires path.device != "" && GoesTo(names, idx, path.device, count, hop) && hop.Valid()
    requires c.device.buffer.Target? ==> c.device.buffer.name != Key(names, path.device)
    requires |hop.dirs| + |c.dirs| <= MAX_DIR_DEPTH
    ensures PartsOf(parts, t, hop) && t.buffer.Target? && t.buffer.name == Key(names, path.device)
    ensures var p := Behind(parts, c.(count := Counted(names[Key(names, path.device)].targets, count)));
            TurnsTo(names, idx, c, depth, Substituted(names, p, depth + 1))
  {
    assert GoesToIf(true, names, idx, path.device, count, hop);
    var targets := names[Key(names, path.device)].targets;
    var count' := Counted(targets, count);
    t := TargetOf(names, Key(names, path.device), Chosen(targets, count, idx));
    NewDevice(names, c, idx, depth + 1);
    parts := TargetReplaces(c.(count := count'), t, hop);
    OneTurn(names, c, idx, depth, count', t, Behind(parts, c.(count := count')));
  }

  /** One turn of the resolution replaces the device, and settles what the target adds. */
  lemma {:induction false} NextHop(names: Names, idx: nat, c: Components, path: Hop, count: nat, left: int,
                                   hop: Hop, value: Hop, depth: nat) returns (c': Components)
    requires Targeted(names) && Has(names, c, path, count, left) && depth + 1 < RESOLVE_MAX_DEPTH
    requires left == Hops(depth + 1) || left == DONE
    requires path.device != "" && GoesTo(names, idx, path.device, count, hop) && hop.Valid()
    requires c.device.buffer.Target? ==> c.device.buffer.name != Key(names, path.device)
    requires Stands(names, hop, value, Hops(depth + 1)) && |hop.dirs| + |path.dirs| <= MAX_DIR_DEPTH
    ensures var count' := Counted(names[Key(names, path.device)].targets, count);
            && Has(names, c', InFront(hop, value, path), count', DONE)
            && TurnsTo(names, idx, c, depth, c')
    ensures c'.device.buffer.Target? && c'.device.buffer.name == Key(names, path.device)
  {
    assert HasIf(true, names, c, path, count, left);
    var count' := Counted(names[Key(names, path.device)].targets, count);
    var t, parts := TargetHop(names, idx, c, path, count, hop, depth);
    var p := Behind(parts, c.(count := count'));
    FromTarget(names, c, path, count, left, t, parts, hop, value, count', Hops(depth + 1));
    Settled(names, p, InFront(hop, value, path), count', Hops(depth + 1), depth + 1);
    c' := Substituted(names, p, depth + 1);
  }

  // ---- The end of the way ----

  /** A path that is done and whose device is no name is the result. */
  lemma {:induction false} DoneIsResult(names: Names, idx: nat, c: Components, path: Hop, count: nat, depth: nat)
    requires Targeted(names) && Has(names, c, path, count, DONE) && depth < RESOLVE_MAX_DEPTH
    requires path.device != "" && path.device !in names && path.device + ":" !in names
    ensures ResolvesTo(names, idx, c, depth, c)
  {
    assert HasIf(true, names, c, path, count, DONE);
    DeviceStays(names, c, idx, depth + 1);
    SubstitutedStays(names, c, path.dirs, path.filename, depth + 1);
    assert Resolve(names, c, idx, depth) == Parsed(c);
  }

  lemma {:induction false} DeviceStays(names: Names, c: Components, i: nat, depth: nat)
    requires Targeted(names) && c.device.text != "" && !c.device.terminal && c.device.count == 1
    requires c.device.text !in names && c.device.text + ":" !in names && depth <= RESOLVE_MAX_DEPTH
    ensures Listed(c.count, ResolveDevice(names, c.device, 0, depth), ResolveDevice(names, c.device, i, depth))
            == (c.count, c.device)
  {
    var withColon := c.device.(text := c.device.text + ":");
    assert ResolveString(names, withColon, 0, depth) == withColon;
    assert ResolveString(names, withColon, i, depth) == withColon;
  }

  lemma {:induction false} SubstitutedStays(names: Names, c: Components, dirs: seq<string>, filename: string,
                                            depth: nat)
    requires Targeted(names) && AllKnown(names, c.dirs, dirs, DONE) && Known(names, c.filename, filename, DONE)
    requires depth <= RESOLVE_MAX_DEPTH
    ensures Substituted(names, c, depth) == c
  {
    forall i | 0 <= i < |c.dirs| ensures ResolveString(names, c.dirs[i], 0, depth) == c.dirs[i] {
      assert Known(names, c.dirs[i], dirs[i], DONE);
      DoneStays(names, c.dirs[i], dirs[i], depth);
    }
    DoneStays(names, c.filename, filename, depth);
    assert Substituted(names, c, depth).dirs == c.dirs;
  }

  /** After 14 names the device is looked up no further, and the path is left as it is. */
  lemma {:induction false} DeepIsResult(names: Names, idx: nat, c: Components, path: Hop, count: nat)
    requires Targeted(names) && Has(names, c, path, count, DONE)
    requires path.device != "" && IsName(names, path.device) && !names[Key(names, path.device)].terminal
    requires c.device.buffer.Target? ==> c.device.buffer.name != Key(names, path.device)
    requires |path.dirs| <= MAX_DIR_DEPTH
    ensures ResolvesTo(names, idx, c, RESOLVE_MAX_DEPTH - 1, c)
  {
    assert HasIf(true, names, c, path, count, DONE);
    TooDeep(names, c.device, 0);
    TooDeep(names, c.device, idx);
    NothingReplaces(c);
    SubstitutedStays(names, c, path.dirs, path.filename, RESOLVE_MAX_DEPTH);
    assert Resolve(names, c, idx, RESOLVE_MAX_DEPTH - 1) == Parsed(c);
  }

  lemma {:induction false} TooDeep(names: Names, s: Raw, i: nat)
    requires Targeted(names) && s.text != "" && !s.terminal && IsName(names, s.text)
    requires !names[Key(names, s.text)].terminal
    ensures ResolveDevice(names, s, i, RESOLVE_MAX_DEPTH) == NULL_RAW
  {
    var withColon := s.(text := s.text + ":");
    var t := TargetOf(names, Key(names, s.text), i);
    assert ResolveString(names, t, i, RESOLVE_MAX_DEPTH + 1) == NULL_RAW;
    if Key(names, s.text) == s.text {
      assert ResolveString(names, withColon, i, RESOLVE_MAX_DEPTH) == withColon;
    }
  }

  lemma {:induction false} NothingReplaces(c: Components)
    requires |c.dirs| <= MAX_DIR_DEPTH
    ensures Replaced(c, NULL_RAW) == Parsed(c)
  {
    assert ScanOf(NULL_RAW, 0) == Next(Scan(None, None, None, 0, []));
    assert [] + c.dirs == c.dirs;
  }

  /** A path whose device is no name: after one turn directories and file are settled. */
  lemma {:induction false} FirstTurn(names: Names, idx: nat, c: Components, path: Hop, count: nat, left: int,
                                     depth: nat) returns (e: Components)
    requires Targeted(names) && Has(names, c, path, count, left)
    requires left + depth + 1 <= RESOLVE_MAX_DEPTH && depth + 1 < RESOLVE_MAX_DEPTH
    requires path.device != "" && path.device !in names && path.device + ":" !in names
    ensures Has(names, e, path, count, DONE) && ResolvesTo(names, idx, c, depth, e)
  {
    assert HasIf(true, names, c, path, count, left);
    DeviceStays(names, c, idx, depth + 1);
    Settled(names, c, path, count, left, depth + 1);
    e := Substituted(names, c, depth + 1);
    DoneIsResult(names, idx, e, path, count, depth + 1);
    SameDeviceTurn(names, idx, c, depth, e);
  }

  /** A turn that leaves the device as it is. */
  lemma {:induction false} SameDeviceTurn(names: Names, idx: nat, c: Components, depth: nat, e: Components)
    requires Targeted(names) && c.unparsable == NULL_RAW && depth < RESOLVE_MAX_DEPTH
    requires var first := ResolveDevice(names, c.device, 0, depth + 1);
             var again := ResolveDevice(names, c.device, idx, depth + 1);
             Listed(c.count, first, again) == (c.count, c.device)
    requires e == Substituted(names, c, depth + 1) && ResolvesTo(names, idx, e, depth + 1, e)
    ensures ResolvesTo(names, idx, c, depth, e)
  {
    assert ResolvesToIf(true, names, idx, e, depth + 1, e);
    assert c.(count := c.count) == c;
    assert Resolve(names, c, idx, depth) == Parsed(e);
  }

  lemma {:induction false} FewerDirs(values: seq<Hop>, k: nat, j: nat)
    requires k <= j < |values|
    ensures |AllDirs(values, k)| <= |AllDirs(values, j)|
    decreases j
  {
    if k < j {
      FewerDirs(values, k, j - 1);
    }
  }

  lemma {:induction false} NextDirs(values: seq<Hop>, k: nat, n: nat)
    requires k + 1 < |values| && |AllDirs(values, |values| - 1)| <= MAX_DIR_DEPTH && n == |values[k + 1].dirs|
    ensures n + |AllDirs(values, k)| <= MAX_DIR_DEPTH
  {
    FewerDirs(values, k + 1, |values| - 1);
    assert |AllDirs(values, k + 1)| == |values[k + 1].dirs| + |AllDirs(values, k)|;
  }

  /** From its k-th path on, a route is followed to its end. */
  lemma {:induction false} RouteFrom(names: Names, idx: nat, hops: seq<Hop>, values: seq<Hop>, k: nat, c: Components,
                                     left: int) returns (e: Components)
    requires IsRoute(names, idx, hops) && RouteEnds(names, hops) && StandFor(names, hops, values) && k < |hops|
    requires |AllDirs(values, |hops| - 1)| <= MAX_DIR_DEPTH
    requires Has(names, c, Together(hops, values, k), CountAt(names, hops, k), left)
    requires left == DONE || (k == 0 && left == Hops(0))
    requires c.device.buffer.Target? ==> k > 0 && c.device.buffer.name == Key(names, hops[k - 1].device)
    ensures Has(names, e, Together(hops, values, |hops| - 1), CountAt(names, hops, |hops| - 1), DONE)
    ensures ResolvesTo(names, idx, c, k, e)
    decreases |hops| - k
  {
    if k + 1 < |hops| {
      var c' := RouteStep(names, idx, hops, values, k, c, left);
      e := RouteFrom(names, idx, hops, values, k + 1, c', DONE);
      TurnThenResult(names, idx, c, k, c', e);
    } else {
      e := RouteEnd(names, idx, hops, values, c, left);
    }
  }

  lemma {:induction false} RouteStep(names: Names, idx: nat, hops: seq<Hop>, values: seq<Hop>, k: nat, c: Components,
                                     left: int) returns (c': Components)
    requires IsRoute(names, idx, hops) && StandFor(names, hops, values) && k + 1 < |hops|
    requires |AllDirs(values, |hops| - 1)| <= MAX_DIR_DEPTH
    requires Has(names, c, Together(hops, values, k), CountAt(names, hops, k), left)
    requires left == DONE || (k == 0 && left == Hops(0))
    requires c.device.buffer.Target? ==> k > 0 && c.device.buffer.name == Key(names, hops[k - 1].device)
    ensures Has(names, c', Together(hops, values, k + 1), CountAt(names, hops, k + 1), DONE)
    ensures TurnsTo(names, idx, c, k, c')
    ensures c'.device.buffer.Target? && c'.device.buffer.name == Key(names, hops[k].device)
  {
    OnRoute(names, idx, hops, k);
    OnRoute(names, idx, hops, k + 1);
    if k > 0 {
      OnRoute(names, idx, hops, k - 1);
    }
    StandsAt(names, hops, values, k + 1);
    NextDirs(values, k, |hops[k + 1].dirs|);
    var path, count := Together(hops, values, k), CountAt(names, hops, k);
    c' := NextHop(names, idx, c, path, count, left, hops[k + 1], values[k + 1], k);
  }

  lemma {:induction false} RouteEnd(names: Names, idx: nat, hops: seq<Hop>, values: seq<Hop>, c: Components, left: int)
      returns (e: Components)
    requires IsRoute(names, idx, hops) && RouteEnds(names, hops) && |hops| == |values|
    requires |AllDirs(values, |hops| - 1)| <= MAX_DIR_DEPTH
    requires Has(names, c, Together(hops, values, |hops| - 1), CountAt(names, hops, |hops| - 1), left)
    requires left == DONE || (|hops| == 1 && left == Hops(0))
    requires c.device.buffer.Target? ==> |hops| > 1 && c.device.buffer.name == Key(names, hops[|hops| - 2].device)
    ensures Has(names, e, Together(hops, values, |hops| - 1), CountAt(names, hops, |hops| - 1), DONE)
    ensures ResolvesTo(names, idx, c, |hops| - 1, e)
  {
    var k := |hops| - 1;
    var path, count := Together(hops, values, k), CountAt(names, hops, k);
    OnRoute(names, idx, hops, k);
    if k > 0 {
      OnRoute(names, idx, hops, k - 1);
    }
    if left != DONE {
      e := FirstTurn(names, idx, c, path, count, left, 0);
    } else {
      e := c;
      if hops[k].device !in names && hops[k].device + ":" !in names {
        DoneIsResult(names, idx, c, path, count, k);
      } else {
        DeepIsResult(names, idx, c, path, count);
      }
    }
  }

  lemma {:induction false} Printed(names: Names, c: Components, path: Hop, count: nat)
    requires Has(names, c, path, count, DONE) && Plain(path.device) && path.device != ""
    ensures Serialized(c) == Some(path.Text()) && c.count == count
  {
    assert HasIf(true, names, c, path, count, DONE);
    forall i | 0 <= i < |path.dirs| ensures c.dirs[i].text == path.dirs[i] {
      assert Known(names, c.dirs[i], path.dirs[i], DONE);
    }
    SerializeGivesBack(c, path.device, path.dirs, path.filename);
  }

  /**
   * A path resolves along its route: to the last device, with the directories that each
   * path on the way adds, the later ones in front, with the file of the last path that
   * has one, and with what directories and file stand for. The count is the length of
   * the first list on the way.
   */
  lemma {:induction false} RouteResolves(names: Names, idx: nat, hops: seq<Hop>, values: seq<Hop>)
    requires IsRoute(names, idx, hops) && RouteEnds(names, hops) && StandFor(names, hops, values)
    requires |AllDirs(values, |hops| - 1)| <= MAX_DIR_DEPTH
    ensures Resolved(names, hops[0].Text(), idx)
            == Some(Result(Some(Together(hops, values, |hops| - 1).Text()), CountAt(names, hops, |hops| - 1)))
  {
    var last := |hops| - 1;
    var s := Raw(Input, 0, hops[0].Text(), false, 1);
    OnRoute(names, idx, hops, 0);
    OnRoute(names, idx, hops, last);
    StandsAt(names, hops, values, 0);
    var parts := PartsAre(s, hops[0]);
    PartsKnown(names, parts, s, hops[0], values[0], Hops(0));
    assert Has(names, parts, Together(hops, values, 0), 1, Hops(0));
    var e := RouteFrom(names, idx, hops, values, 0, parts, Hops(0));
    assert ResolvesToIf(true, names, idx, parts, 0, e);
    Printed(names, e, Together(hops, values, last), CountAt(names, hops, last));
  }

  // ---- One name ----

  /** Nothing in the path is a name. */
  lemma {:induction false} StandsForItself(names: Names, hop: Hop, hops: nat)
    requires Targeted(names) && hop.Valid() && hop.filename !in names
    requires forall i | 0 <= i < |hop.dirs| :: hop.dirs[i] !in names
    ensures Stands(names, hop, hop, hops)
  {
    forall i | 0 <= i < |hop.dirs| ensures Leads(names, hop.dirs[i], hop.dirs[i], hops) {
      assert PlainDir(hop.dirs[i]);
      LeadsToItself(names, hop.dirs[i], hops);
    }
    LeadsToItself(names, hop.filename, hops);
    assert StandsIf(true, names, hop, hop, hops);
  }

  /**
   * A path whose device is a name for paths in which nothing is a name: the directories
   * of the target that is chosen come first, and its file if it has one.
   */
  lemma {:induction false} PathThroughName(names: Names, idx: nat, device: string, dirs: seq<string>, filename: string,
                                           device': string, dirs': seq<string>, filename': string)
    requires Targeted(names) && IsName(names, device) && NoNames(names, device', dirs', filename')
    requires filename !in names && forall i | 0 <= i < |dirs| :: dirs[i] !in names
    requires Hop(device, dirs, filename).Valid() && Hop(device', dirs', filename').Valid()
    requires |dirs'| + |dirs| <= MAX_DIR_DEPTH
    requires var targets := names[Key(names, device)].targets;
             targets[if idx < |targets| then idx else 0] == PathText(device', dirs', filename')
    ensures Resolved(names, PathText(device, dirs, filename), idx)
            == Some(Result(Some(PathText(device', dirs' + dirs, if filename' != "" then filename' else filename)),
                           |names[Key(names, device)].targets|))
  {
    var a, b := Hop(device, dirs, filename), Hop(device', dirs', filename');
    StandsForItself(names, a, RESOLVE_MAX_DEPTH - 1);
    StandsForItself(names, b, RESOLVE_MAX_DEPTH - 1);
    OneName(names, idx, a, b);
    RouteResolves(names, idx, [a, b], [a, b]);
  }

  lemma {:induction false} OneName(names: Names, idx: nat, a: Hop, b: Hop)
    requires Targeted(names) && a.Valid() && b.Valid() && IsName(names, a.device)
    requires b.device !in names && b.device + ":" !in names
    requires var targets := names[Key(names, a.device)].targets;
             targets[if idx < |targets| then idx else 0] == b.Text()
    requires Stands(names, a, a, RESOLVE_MAX_DEPTH - 1) && Stands(names, b, b, RESOLVE_MAX_DEPTH - 1)
    ensures var hops := [a, b];
            && IsRoute(names, idx, hops) && RouteEnds(names, hops) && StandFor(names, hops, hops)
            && Together(hops, hops, 1) == InFront(b, b, a)
            && CountAt(names, hops, 1) == |names[Key(names, a.device)].targets|
  {
    var hops := [a, b];
    assert hops[0] == a && hops[1] == b;
    assert CountAt(names, hops, 0) == 1;
    assert GoesToIf(true, names, idx, a.device, 1, b);
    assert LeadsOn(names, idx, hops, 0);
    assert AllDirs(hops, 0) == a.dirs && AllDirs(hops, 1) == b.dirs + a.dirs;
    assert FileOf(hops, hops, 0) == a.filename;
    assert Hops(0) == Hops(1) == RESOLVE_MAX_DEPTH - 1;
  }

  /** A bare name for paths in which nothing is a name: the path at the index, and the number of them. */
  lemma {:induction false} NameForPath(names: Names, idx: nat, name: string, path: Hop)
    requires Targeted(names) && Bare(name) && name in names
    requires forall t | t in names[name].targets :: t != "" && t !in names
    requires var targets := names[name].targets; targets[if idx < |targets| then idx else 0] == path.Text()
    requires path.Valid() && NoNames(names, path.device, path.dirs, path.filename)
    ensures Resolved(names, name, idx) == Some(Result(Some(path.Text()), |names[name].targets|))
  {
    var targets := names[name].targets;
    var s := Raw(Input, 0, name, false, 1);
    var t := TargetOf(names, name, Chosen(targets, 1, idx));
    BareIsUnparsable(s);
    PlainTarget(names, s, idx);
    var parts := PartsAre(t, path);
    StandsForItself(names, path, 0);
    PartsKnown(names, parts, t, path, path, 0);
    var next := parts.(count := |targets|);
    assert HasIf(true, names, next, path, |targets|, 0);
    var e := FirstTurn(names, 0, next, path, |targets|, 0, 1);
    assert ResolvesToIf(true, names, 0, next, 1, e);
    Printed(names, e, path, |targets|);
  }

  /**
   * A bare name for a path whose device is a name in its turn: of a list there the first
   * path is taken, whatever the index, and its length is the count.
   */
  lemma {:induction false} NameThenName(names: Names, idx: nat, name: string, path: Hop, next: Hop)
    requires Targeted(names) && Bare(name) && name in names && names[name].targets == [path.Text()]
    requires path.Text() !in names && path.Valid() && next.Valid() && IsName(names, path.device)
    requires names[Key(names, path.device)].targets[0] == next.Text()
    requires NoNames(names, next.device, next.dirs, next.filename)
    requires path.filename !in names && forall i | 0 <= i < |path.dirs| :: path.dirs[i] !in names
    requires |next.dirs| + |path.dirs| <= MAX_DIR_DEPTH && Key(names, path.device) != name
    ensures Resolved(names, name, idx)
            == Some(Result(Some(InFront(next, next, path).Text()), |names[Key(names, path.device)].targets|))
  {
    var count := |names[Key(names, path.device)].targets|;
    var t := TargetOf(names, name, Chosen(names[name].targets, 1, idx));
    BareIsUnparsable(Raw(Input, 0, name, false, 1));
    PlainTarget(names, Raw(Input, 0, name, false, 1), idx);
    var parts := PartsAre(t, path);
    StandsForItself(names, path, Hops(2));
    PartsKnown(names, parts, t, path, path, Hops(2));
    StandsForItself(names, next, Hops(2));
    assert HasIf(true, names, parts, path, 1, Hops(2));
    assert GoesToIf(true, names, 0, path.device, 1, next);
    var c := NextHop(names, 0, parts, path, 1, Hops(2), next, next, 1);
    DoneIsResult(names, 0, c, InFront(next, next, path), count, 2);
    TurnThenResult(names, 0, parts, 1, c, c);
    assert ResolvesToIf(true, names, 0, parts, 1, c);
    FirstIsPath(names, idx, name, parts, c);
    Printed(names, c, InFront(next, next, path), count);
  }

  lemma {:induction false} FirstIsPath(names: Names, idx: nat, name: string, parts: Components, c: Components)
    requires Targeted(names) && Bare(name) && name in names && |names[name].targets| == 1
    requires forall t | t in names[name].targets :: t != "" && t !in names
    requires ParsedString(TargetOf(names, name, 0)) == Parsed(parts) && parts.count == 1
    requires Resolve(names, parts, 0, 1) == Parsed(c)
    ensures Resolved(names, name, idx) == Some(Result(Serialized(c), c.count))
  {
    var s := Raw(Input, 0, name, false, 1);
    BareIsUnparsable(s);
    PlainTarget(names, s, idx);
    assert parts.(count := 1) == parts;
  }

  lemma {:induction false} PlainTarget(names: Names, s: Raw, idx: nat)
    requires Targeted(names) && s.text != "" && s.text in names && !s.terminal && s.buffer == Input
    requires forall t | t in names[s.text].targets :: t != "" && t !in names
    ensures var targets := names[s.text].targets;
            var t := TargetOf(names, s.text, Chosen(targets, 1, idx));
            && Listed(1, ResolveString(names, s, 0, 1), ResolveString(names, s, idx, 1)) == (|targets|, t)
            && t.text != "" && !Same(t, s) && t.text == targets[Chosen(targets, 1, idx)]
  {
    var targets := names[s.text].targets;
    var first, again := TargetOf(names, s.text, 0), TargetOf(names, s.text, idx);
    assert first.text in targets && again.text in targets;
    assert ResolveString(names, first, 0, 2) == first && ResolveString(names, again, idx, 2) == again;
  }

  /** A device that is a name for another device: that takes its place. */
  lemma {:induction false} DeviceForDevice(names: Names, idx: nat, path: Hop, device: string)
    requires Targeted(names) && path.Valid() && IsName(names, path.device) && Bare(device)
    requires names[Key(names, path.device)] == Name([device], false)
    requires NoNames(names, device, path.dirs, path.filename)
    ensures Resolved(names, path.Text(), idx) == Some(Result(Some(PathText(device, path.dirs, path.filename)), 1))
  {
    var s := Raw(Input, 0, path.Text(), false, 1);
    var parts := PartsAre(s, path);
    var t := TargetOf(names, Key(names, path.device), Chosen([device], 1, idx));
    NewDevice(names, parts, idx, 1);
    BareIsUnparsable(t);
    var p, other := parts.(device := t), path.(device := device);
    StandsForItself(names, path, 0);
    PartsKnown(names, parts, s, path, path, 0);
    assert HasIf(true, names, p, other, 1, 0);
    OneTurn(names, parts, idx, 0, 1, t, p);
    Settled(names, p, other, 1, 0, 1);
    var e := Substituted(names, p, 1);
    DoneIsResult(names, idx, e, other, 1, 1);
    assert ResolvesToIf(true, names, idx, e, 1, e);
    Printed(names, e, other, 1);
  }

  // ---- Texts that are no paths ----

  /** A second colon, or directories that are not closed, make a text a plain string. */
  ghost predicate BadPath(text: string) {
    || (exists a, b, c :: Plain(a) && Plain(b) && text == a + ":" + (b + ":" + c))
    || (exists a, d :: Plain(a) && PlainDir(d) && text == a + ":" + ("[" + d))
  }

  lemma {:induction false} TwoColons(s: Raw, a: string, b: string, c: string)
    requires Plain(a) && Plain(b) && s.text == a + ":" + (b + ":" + c)
    ensures ParsedString(s) == Parsed(Unparsable(s))
  {
    var i, j := |a|, |a| + 1 + |b|;
    assert s.text[0..i] == a && s.text[i] == ':' && s.text[i + 1..j] == b && s.text[j] == ':';
    DeviceScan(s, a);
    ScanOver(s, i + 1, j, b);
    Stopped(s, j + 1, |s.text|);
  }

  lemma {:induction false} Unclosed(s: Raw, a: string, d: string)
    requires Plain(a) && PlainDir(d) && s.text == a + ":" + ("[" + d)
    ensures ParsedString(s) == Parsed(Unparsable(s))
  {
    var base := |a| + 2;
    assert s.text[0..|a|] == a && s.text[|a|] == ':' && s.text[base - 1] == '[' && s.text[base..|s.text|] == d;
    DeviceAndOpen(s, a, base);
    ScanOver(s, base, |s.text|, d);
  }

  /** A bad path is no path, and if it is no name either it resolves to itself. */
  lemma {:induction false} BadPathStays(names: Names, text: string, idx: nat)
    requires Targeted(names) && BadPath(text) && text !in names
    ensures Resolved(names, text, idx) == Some(Result(Some(text), 1))
  {
    var s := Raw(Input, 0, text, false, 1);
    if a, b, c :| Plain(a) && Plain(b) && text == a + ":" + (b + ":" + c) {
      TwoColons(s, a, b, c);
    } else {
      var a, d :| Plain(a) && PlainDir(d) && text == a + ":" + ("[" + d);
      Unclosed(s, a, d);
    }
    FinalStaysPlain(names, s, 1, idx, 0);
    assert Unparsable(s).(count := 1) == Unparsable(s);
  }
}
