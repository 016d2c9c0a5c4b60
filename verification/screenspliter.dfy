/** The monitor handling of `screenspliter.rs`: the `Position` enum, the
    `Monitor` record, the parser of the discovery pipeline's output, and the
    outcomes of `list_monitors` and `split_screen`. The processes the program
    spawns are not modelled: the discovery output is an input (already split
    into lines), printed lines and spawned commands are results. */
module ScreenSpliter {
  import opened Results
  import opened Strings
  import opened Decimal

  // ---------------------------------------------------------------------
  // Position

  /** Where the secondary monitor goes relative to the primary one. */
  datatype Position = Left | Same | Right {

    /** `Position::default()`: the secondary monitor goes right of the primary. */
    static function Default(): (p: Position)
      ensures p.AsXrandrArg() == "--right-of"
    {
      Right
    }

    /** `Display`, through the `{:#?}` debug form: the variant's name. */
    function Name(): (s: string)
      ensures PositionNamed(s) == Some(this)
    {
      match this
      case Left => "Left"
      case Same => "Same"
      case Right => "Right"
    }

    /** `as_xrandr_arg`: the xrandr flag that places one output relative to
        another. Distinct positions get distinct flags. */
    function AsXrandrArg(): (flag: string)
      ensures PositionOfFlag(flag) == Some(this)
    {
      match this
      case Left => "--left-of"
      case Same => "--same-as"
      case Right => "--right-of"
    }
  }

  /** The position a variant name stands for: the inverse of `Name`. */
  function PositionNamed(s: string): Option<Position> {
    if s == "Left" then Some(Left)
    else if s == "Same" then Some(Same)
    else if s == "Right" then Some(Right)
    else None
  }

  /** The position an xrandr flag stands for: the inverse of `AsXrandrArg`. */
  function PositionOfFlag(flag: string): Option<Position> {
    if flag == "--left-of" then Some(Left)
    else if flag == "--same-as" then Some(Same)
    else if flag == "--right-of" then Some(Right)
    else None
  }

  /** Only the three flags are produced, and no two positions share one. */
  lemma FlagInjective(p: Position, q: Position)
    ensures p.AsXrandrArg() == q.AsXrandrArg() <==> p == q
    ensures p.AsXrandrArg() in {"--left-of", "--same-as", "--right-of"}
  {
    assert PositionOfFlag(p.AsXrandrArg()) == Some(p);
    assert PositionOfFlag(q.AsXrandrArg()) == Some(q);
  }

  // ---------------------------------------------------------------------
  // Resolution lines

  predicate Numeric(piece: string) {
    ParseU32(piece).Some?
  }

  /** The values `parse` accepts among `pieces`, in order. */
  function Kept(pieces: seq<string>, parse: string -> Option<u32>): seq<u32>
  {
    if |pieces| == 0 then
      []
    else
      (match parse(pieces[0]) case Some(n) => [n] case None => []) + Kept(pieces[1..], parse)
  }

  lemma {:induction false} KeptAppend(a: seq<string>, b: seq<string>, parse: string -> Option<u32>)
    ensures Kept(a + b, parse) == Kept(a, parse) + Kept(b, parse)
    decreases |a|
  {
    if |a| == 0 {
      assert a + b == b;
    } else {
      var head := match parse(a[0]) case Some(n) => [n] case None => [];
      assert (a + b)[0] == a[0];
      assert (a + b)[1..] == a[1..] + b;
      KeptAppend(a[1..], b, parse);
      calc {
        Kept(a + b, parse);
        head + Kept(a[1..] + b, parse);
        head + (Kept(a[1..], parse) + Kept(b, parse));
        (head + Kept(a[1..], parse)) + Kept(b, parse);
      }
    }
  }

  /** The `u32`s among the pieces, in order: `map(u32::from_str)`,
      `filter(Result::is_ok)`, `map(Result::unwrap)`, `collect`. */
  function Numbers(pieces: seq<string>): seq<u32>
  {
    Kept(pieces, ParseU32)
  }

  lemma NumbersAppend(a: seq<string>, b: seq<string>)
    ensures Numbers(a + b) == Numbers(a) + Numbers(b)
  {
    KeptAppend(a, b, ParseU32);
  }

  /** A single piece contributes its value when it parses, nothing otherwise. */
  lemma NumbersSingle(piece: string)
    ensures Numbers([piece]) == if Numeric(piece) then [ParseU32(piece).value] else []
  {
    assert [piece][1..] == [];
    assert Kept([], ParseU32) == [];
    assert Kept([piece], ParseU32)
        == (match ParseU32(piece) case Some(n) => [n] case None => []) + Kept([], ParseU32);
  }

  lemma {:induction false} NumbersNone(pieces: seq<string>)
    requires forall k :: 0 <= k < |pieces| ==> !Numeric(pieces[k])
    ensures Numbers(pieces) == []
    decreases |pieces|
  {
    if |pieces| > 0 {
      NumbersNone(pieces[1..]);
    }
  }

  lemma {:induction false} NumbersSome(pieces: seq<string>, i: nat)
    requires i < |pieces| && Numeric(pieces[i])
    ensures |Numbers(pieces)| >= 1
  {
    assert pieces[i..][0] == pieces[i];
    NumbersAppend(pieces[..i], pieces[i..]);
    Cut(pieces, i);
  }

  /** The pieces of a resolution line: `split('x')`. */
  function Pieces(line: string): seq<string> {
    Split(line, 'x')
  }

  /** Pieces `i` and `j` are the first two that parse as `u32`. */
  predicate FirstTwoNumeric(pieces: seq<string>, i: nat, j: nat) {
    && i < j < |pieces|
    && Numeric(pieces[i]) && Numeric(pieces[j])
    && (forall k :: 0 <= k < j && k != i ==> !Numeric(pieces[k]))
  }

  /** The resolution read from a line, as the `if let [resx, resy] = ..[..2]`
      of `get_available_monitors` reads it: the first two `u32`s among the
      `'x'`-separated pieces. `None` is the case where the slice `[..2]`
      panics because fewer than two pieces are numbers; the `else` branch of
      the `if let` is never reached. */
  function ParseResolution(line: string): Option<(u32, u32)> {
    var ns := Numbers(Pieces(line));
    if |ns| < 2 then None else Some((ns[0], ns[1]))
  }

  lemma NumbersFirstTwo(ps: seq<string>, i: nat, j: nat)
    requires FirstTwoNumeric(ps, i, j)
    ensures |Numbers(ps)| >= 2
    ensures Numbers(ps)[0] == ParseU32(ps[i]).value
    ensures Numbers(ps)[1] == ParseU32(ps[j]).value
  {
    var front, mid, back := ps[..i], [ps[i]] + ps[i + 1..j], [ps[j]] + ps[j + 1..];
    var vi, vj := ParseU32(ps[i]).value, ParseU32(ps[j]).value;
    NumbersSingle(ps[i]);
    NumbersSingle(ps[j]);
    NumbersNone(front);
    NumbersNone(ps[i + 1..j]);
    NumbersAppend([ps[i]], ps[i + 1..j]);
    assert Numbers(mid) == [vi];
    NumbersAppend([ps[j]], ps[j + 1..]);
    var nb := Numbers(back);
    assert |nb| >= 1 && nb[0] == vj;
    NumbersAppend(mid, back);
    NumbersAppend(front, mid + back);
    Around(ps, i, j);
  }

  lemma Cut<T>(ps: seq<T>, n: nat)
    requires n <= |ps|
    ensures ps == ps[..n] + ps[n..]
  {
  }

  /** `ps` cut around positions `i` and `j`. */
  lemma Around<T>(ps: seq<T>, i: nat, j: nat)
    requires i < j < |ps|
    ensures ps == ps[..i] + (([ps[i]] + ps[i + 1..j]) + ([ps[j]] + ps[j + 1..]))
  {
  }

  /** Non-numeric pieces are skipped, the first two numeric pieces are the
      width and the height, and every later piece is ignored. */
  lemma ResolutionFirstTwo(line: string, i: nat, j: nat)
    requires FirstTwoNumeric(Pieces(line), i, j)
    ensures ParseResolution(line)
         == Some((ParseU32(Pieces(line)[i]).value, ParseU32(Pieces(line)[j]).value))
  {
    NumbersFirstTwo(Pieces(line), i, j);
  }

  lemma NumbersAtLeastTwo(ps: seq<string>)
    ensures |Numbers(ps)| >= 2
        <==> exists i: nat, j: nat :: i < j < |ps| && Numeric(ps[i]) && Numeric(ps[j])
  {
    if i: nat, j: nat :| i < j < |ps| && Numeric(ps[i]) && Numeric(ps[j]) {
      var front, back := ps[..i + 1], ps[i + 1..];
      assert front[i] == ps[i] && back[j - (i + 1)] == ps[j];
      NumbersSome(front, i);
      NumbersSome(back, j - (i + 1));
      NumbersAppend(front, back);
      Cut(ps, i + 1);
    } else if |Numbers(ps)| >= 2 {
      var i, j := NumericWitnesses(ps);
      assert false;
    }
  }

  /** The slice `[..2]` panics exactly when fewer than two pieces of the
      line are numbers. */
  lemma ResolutionNone(line: string)
    ensures ParseResolution(line).None?
        <==> !exists i: nat, j: nat :: i < j < |Pieces(line)|
                                         && Numeric(Pieces(line)[i]) && Numeric(Pieces(line)[j])
  {
    NumbersAtLeastTwo(Pieces(line));
  }

  lemma {:induction false} NumericWitnesses(pieces: seq<string>) returns (i: nat, j: nat)
    requires |Numbers(pieces)| >= 2
    ensures i < j < |pieces| && Numeric(pieces[i]) && Numeric(pieces[j])
    decreases |pieces|
  {
    var rest := pieces[1..];
    if Numeric(pieces[0]) {
      assert |Numbers(rest)| >= 1;
      var j' := SomeNumeric(rest);
      i, j := 0, j' + 1;
    } else {
      var i', j' := NumericWitnesses(rest);
      i, j := i' + 1, j' + 1;
    }
  }

  lemma {:induction false} SomeNumeric(pieces: seq<string>) returns (i: nat)
    requires |Numbers(pieces)| >= 1
    ensures i < |pieces| && Numeric(pieces[i])
    decreases |pieces|
  {
    if Numeric(pieces[0]) {
      i := 0;
    } else {
      var i' := SomeNumeric(pieces[1..]);
      i := i' + 1;
    }
  }

  // ---------------------------------------------------------------------
  // Monitor

  /** A connected output: the name the discovery tool printed and the mode
      it is using. `Monitor::new` is the constructor and `Monitor::name` the
      `name` field. */
  datatype Monitor = Monitor(name: string, resolution: (u32, u32)) {

    /** `Monitor::to_string`: the resolution as `"{w}x{h}"`. */
    function ToString(): string {
      Format(resolution.0) + "x" + Format(resolution.1)
    }
  }

  /** The resolution parser reads `to_string`'s `"{w}x{h}"` back as `(w, h)`. */
  lemma ResolutionRoundTrip(m: Monitor)
    ensures ParseResolution(m.ToString()) == Some(m.resolution)
  {
    var (w, h) := m.resolution;
    var fw, fh := Format(w), Format(h);
    assert m.ToString() == fw + ['x'] + fh;
    assert 'x' !in fw && 'x' !in fh by {
      assert AllDigits(fw) && AllDigits(fh);
    }
    SplitConcat(fw, 'x', fh);
    SplitSepFree(fw, 'x');
    SplitSepFree(fh, 'x');
    ParseFormat(w);
    ParseFormat(h);
    NumbersAppend([fw], [fh]);
    assert [fw] + [fh] == [fw, fh];
  }

  /** `"{w}x{h}"` starts and ends with a digit, so trimming leaves it alone. */
  lemma ToStringTrimmed(m: Monitor)
    ensures Trim(m.ToString()) == m.ToString()
  {
    var s := m.ToString();
    var fw, fh := Format(m.resolution.0), Format(m.resolution.1);
    assert s == fw + "x" + fh;
    assert s[0] == fw[0] && s[|s| - 1] == fh[|fh| - 1];
    assert IsDigit(s[0]) && IsDigit(s[|s| - 1]);
    TrimTrimmed(s);
  }

  // ---------------------------------------------------------------------
  // Discovery

  /** Why the program panics while parsing the discovery output. */
  datatype Panic =
      /** `lines[i + 1]` past the end: the output has an odd number of lines. */
    | IndexOutOfBounds(index: nat, len: nat)
      /** `[..2]` on the numbers read from line `line`, of which there are fewer than two. */
    | SliceTooShort(line: nat)

  datatype Failure =
      /** The `NoMonitorFound` error, displayed as "No monitor has been found". */
    | NoMonitorFound
    | Panicked(panic: Panic)

  /** `lines.map(str::trim)`. */
  function TrimAll(lines: seq<string>): (ts: seq<string>)
    ensures |ts| == |lines|
  {
    if |lines| == 0 then [] else [Trim(lines[0])] + TrimAll(lines[1..])
  }

  lemma {:induction false} TrimAllAt(lines: seq<string>, k: nat)
    requires k < |lines|
    ensures TrimAll(lines)[k] == Trim(lines[k])
    decreases k
  {
    if k > 0 {
      TrimAllAt(lines[1..], k - 1);
    }
  }

  /** How the second line of a pair is read; `None` is the panic of
      `[..2]`. The program reads it with `ParseResolution`. */
  type ModeReader = string -> Option<(u32, u32)>

  /** Pair `k` (lines `2k` and `2k + 1`) is complete and its second line
      is read as a resolution. */
  predicate PairReads(ts: seq<string>, k: nat, read: ModeReader) {
    2 * k + 1 < |ts| && read(ts[2 * k + 1]).Some?
  }

  predicate PairsRead(ts: seq<string>, from: nat, to: nat, read: ModeReader) {
    forall k: nat :: from <= k < to ==> PairReads(ts, k, read)
  }

  /** The monitor pair `k` describes. */
  function PairMonitor(ts: seq<string>, k: nat, read: ModeReader): Monitor
    requires PairReads(ts, k, read)
  {
    Monitor(ts[2 * k], read(ts[2 * k + 1]).value)
  }

  /** The closure of `get_available_monitors` applied to `i = 2k, 2k + 2, …`
      (`(0..lines.len()).step_by(2)`), stopping at the first panic. */
  function ParsePairs(ts: seq<string>, k: nat, read: ModeReader): Result<seq<Monitor>, Failure>
    requires 2 * k <= |ts|
    decreases |ts| - 2 * k
  {
    if 2 * k == |ts| then
      Ok([])
    else if 2 * k + 1 == |ts| then
      Err(Panicked(IndexOutOfBounds(2 * k + 1, |ts|)))
    else
      match read(ts[2 * k + 1])
      case None => Err(Panicked(SliceTooShort(2 * k + 1)))
      case Some(res) =>
        match ParsePairs(ts, k + 1, read)
        case Err(e) => Err(e)
        case Ok(rest) => Ok([Monitor(ts[2 * k], res)] + rest)
  }

  lemma {:induction false} ParsePairsOk(ts: seq<string>, k: nat, read: ModeReader)
    requires 2 * k <= |ts|
    ensures ParsePairs(ts, k, read).Ok? <==> |ts| % 2 == 0 && PairsRead(ts, k, |ts| / 2, read)
    ensures ParsePairs(ts, k, read).Err? ==> ParsePairs(ts, k, read).error.Panicked?
    decreases |ts| - 2 * k
  {
    if 2 * k + 1 < |ts| {
      ParsePairsOk(ts, k + 1, read);
      if PairReads(ts, k, read) {
        assert PairsRead(ts, k, |ts| / 2, read) <==> PairsRead(ts, k + 1, |ts| / 2, read);
      }
    }
  }

  lemma {:induction false} ParsePairsLength(ts: seq<string>, k: nat, read: ModeReader)
    requires 2 * k <= |ts| && ParsePairs(ts, k, read).Ok?
    ensures |ParsePairs(ts, k, read).value| == |ts| / 2 - k
    decreases |ts| - 2 * k
  {
    if 2 * k < |ts| {
      ParsePairsLength(ts, k + 1, read);
    }
  }

  lemma {:induction false} ParsePairsAt(ts: seq<string>, k: nat, read: ModeReader, j: nat)
    requires 2 * k <= |ts| && ParsePairs(ts, k, read).Ok?
    requires j < |ParsePairs(ts, k, read).value|
    ensures PairReads(ts, k + j, read)
    ensures ParsePairs(ts, k, read).value[j] == PairMonitor(ts, k + j, read)
    decreases j
  {
    assert PairReads(ts, k, read);
    if j > 0 {
      ParsePairsAt(ts, k + 1, read, j - 1);
    }
  }

  lemma {:induction false} ParsePairsOddLength(ts: seq<string>, k: nat, read: ModeReader)
    requires 2 * k <= |ts| && |ts| % 2 == 1
    requires PairsRead(ts, k, |ts| / 2, read)
    ensures ParsePairs(ts, k, read) == Err(Panicked(IndexOutOfBounds(|ts|, |ts|)))
    decreases |ts| - 2 * k
  {
    if 2 * k + 1 < |ts| {
      assert PairReads(ts, k, read);
      ParsePairsOddLength(ts, k + 1, read);
    }
  }

  lemma {:induction false} ParsePairsTooShort(ts: seq<string>, k: nat, b: nat, read: ModeReader)
    requires k <= b && 2 * b + 1 < |ts|
    requires PairsRead(ts, k, b, read) && read(ts[2 * b + 1]).None?
    ensures ParsePairs(ts, k, read) == Err(Panicked(SliceTooShort(2 * b + 1)))
    decreases b - k
  {
    if k < b {
      assert PairReads(ts, k, read);
      ParsePairsTooShort(ts, k + 1, b, read);
    }
  }

  /** `get_available_monitors` from the point where the pipeline's output is
      split into lines: each line is trimmed, then consecutive lines are read
      as (name, resolution) pairs. */
  function ParseMonitors(lines: seq<string>): Result<seq<Monitor>, Failure> {
    ParsePairs(TrimAll(lines), 0, ParseResolution)
  }

  /** The trimmed first line of pair `k`: the monitor's name. */
  function NameLine(lines: seq<string>, k: nat): string
    requires 2 * k < |lines|
  {
    Trim(lines[2 * k])
  }

  /** The trimmed second line of pair `k`: the monitor's mode. */
  function ModeLine(lines: seq<string>, k: nat): string
    requires 2 * k + 1 < |lines|
  {
    Trim(lines[2 * k + 1])
  }

  /** The first `n` pairs are complete and their mode lines hold resolutions. */
  predicate ModesParse(lines: seq<string>, n: nat) {
    forall k: nat :: k < n ==> 2 * k + 1 < |lines| && ParseResolution(ModeLine(lines, k)).Some?
  }

  lemma ModesParseRead(lines: seq<string>, from: nat, n: nat)
    ensures ModesParse(lines, n) ==> PairsRead(TrimAll(lines), from, n, ParseResolution)
    ensures PairsRead(TrimAll(lines), 0, n, ParseResolution) ==> ModesParse(lines, n)
  {
    if ModesParse(lines, n) {
      ModesParseToRead(lines, from, n);
    }
    if PairsRead(TrimAll(lines), 0, n, ParseResolution) {
      ReadToModesParse(lines, n);
    }
  }

  lemma ModesParseToRead(lines: seq<string>, from: nat, n: nat)
    requires ModesParse(lines, n)
    ensures PairsRead(TrimAll(lines), from, n, ParseResolution)
  {
    forall k: nat | from <= k < n
      ensures PairReads(TrimAll(lines), k, ParseResolution)
    {
      ModeLineReads(lines, k);
    }
  }

  lemma ReadToModesParse(lines: seq<string>, n: nat)
    requires PairsRead(TrimAll(lines), 0, n, ParseResolution)
    ensures ModesParse(lines, n)
  {
    forall k: nat | k < n
      ensures 2 * k + 1 < |lines| && ParseResolution(ModeLine(lines, k)).Some?
    {
      assert PairReads(TrimAll(lines), k, ParseResolution);
      ModeLineReads(lines, k);
    }
  }

  /** Pair `k` reads, in the parser's terms, exactly when its mode line holds
      a resolution. */
  lemma ModeLineReads(lines: seq<string>, k: nat)
    requires 2 * k + 1 < |lines|
    ensures PairReads(TrimAll(lines), k, ParseResolution) <==> ParseResolution(ModeLine(lines, k)).Some?
  {
    TrimAllAt(lines, 2 * k + 1);
  }

  /** Parsing succeeds exactly when the lines come in complete pairs whose
      mode lines hold resolutions; any failure is a panic. */
  lemma ParseMonitorsOk(lines: seq<string>)
    ensures ParseMonitors(lines).Ok? <==> |lines| % 2 == 0 && ModesParse(lines, |lines| / 2)
    ensures ParseMonitors(lines).Err? ==> ParseMonitors(lines).error.Panicked?
  {
    ParsePairsOk(TrimAll(lines), 0, ParseResolution);
    ModesParseRead(lines, 0, |lines| / 2);
  }

  lemma ParseMonitorsAt(lines: seq<string>, k: nat)
    requires ParseMonitors(lines).Ok? && k < |ParseMonitors(lines).value|
    ensures 2 * k + 1 < |lines|
    ensures ParseResolution(ModeLine(lines, k)).Some?
    ensures ParseMonitors(lines).value[k] == Monitor(NameLine(lines, k), ParseResolution(ModeLine(lines, k)).value)
  {
    var ts := TrimAll(lines);
    ParsePairsAt(ts, 0, ParseResolution, k);
    TrimAllAt(lines, 2 * k);
    TrimAllAt(lines, 2 * k + 1);
  }

  /** A successful parse yields one monitor per pair, in input order, named
      by the pair's trimmed first line, with the resolution its trimmed
      second line holds. In particular no lines give no monitors. */
  lemma ParseMonitorsValue(lines: seq<string>)
    requires ParseMonitors(lines).Ok?
    ensures |ParseMonitors(lines).value| == |lines| / 2
    ensures forall k :: 0 <= k < |lines| / 2 ==>
              && ParseMonitors(lines).value[k].name == NameLine(lines, k)
              && ParseResolution(ModeLine(lines, k)) == Some(ParseMonitors(lines).value[k].resolution)
  {
    ParsePairsLength(TrimAll(lines), 0, ParseResolution);
    forall k | 0 <= k < |lines| / 2
      ensures ParseMonitors(lines).value[k].name == NameLine(lines, k)
      ensures ParseResolution(ModeLine(lines, k)) == Some(ParseMonitors(lines).value[k].resolution)
    {
      ParseMonitorsAt(lines, k);
    }
  }

  /** An odd number of lines whose pairs all parse panics on `lines[i + 1]`
      with `i + 1` equal to the number of lines. */
  lemma ParseMonitorsOddLength(lines: seq<string>)
    requires |lines| % 2 == 1
    requires ModesParse(lines, |lines| / 2)
    ensures ParseMonitors(lines) == Err(Panicked(IndexOutOfBounds(|lines|, |lines|)))
  {
    ModesParseRead(lines, 0, |lines| / 2);
    ParsePairsOddLength(TrimAll(lines), 0, ParseResolution);
  }

  /** The first pair whose mode line holds fewer than two numbers makes the
      slice `[..2]` panic; nothing after it is looked at. */
  lemma ParseMonitorsTooShort(lines: seq<string>, b: nat)
    requires 2 * b + 1 < |lines|
    requires ModesParse(lines, b)
    requires |Numbers(Pieces(ModeLine(lines, b)))| < 2
    ensures ParseMonitors(lines) == Err(Panicked(SliceTooShort(2 * b + 1)))
  {
    ModesParseRead(lines, 0, b);
    TrimAllAt(lines, 2 * b + 1);
    ParsePairsTooShort(TrimAll(lines), 0, b, ParseResolution);
  }

  /** The discovery pipeline's output for `ms`: each monitor's name on one
      line and its `"{w}x{h}"` mode on the next. */
  function Render(ms: seq<Monitor>): (lines: seq<string>)
    ensures |lines| == 2 * |ms|
  {
    if |ms| == 0 then [] else [ms[0].name, ms[0].ToString()] + Render(ms[1..])
  }

  lemma {:induction false} RenderAt(ms: seq<Monitor>, k: nat)
    requires k < |ms|
    ensures Render(ms)[2 * k] == ms[k].name
    ensures Render(ms)[2 * k + 1] == ms[k].ToString()
    decreases k
  {
    if k > 0 {
      RenderAt(ms[1..], k - 1);
    }
  }

  /** Pair `k` of the rendered lines reads back as monitor `k`. */
  lemma RenderPairAt(ms: seq<Monitor>, k: nat)
    requires k < |ms| && IsTrimmed(ms[k].name)
    ensures 2 * k + 1 < |Render(ms)|
    ensures NameLine(Render(ms), k) == ms[k].name
    ensures ParseResolution(ModeLine(Render(ms), k)) == Some(ms[k].resolution)
  {
    RenderAt(ms, k);
    TrimTrimmed(ms[k].name);
    ToStringTrimmed(ms[k]);
    ResolutionRoundTrip(ms[k]);
  }

  lemma RenderModesParse(ms: seq<Monitor>)
    requires forall k :: 0 <= k < |ms| ==> IsTrimmed(ms[k].name)
    ensures |Render(ms)| % 2 == 0 && ModesParse(Render(ms), |Render(ms)| / 2)
  {
    var lines := Render(ms);
    assert |lines| / 2 == |ms|;
    forall k: nat | k < |ms|
      ensures 2 * k + 1 < |lines| && ParseResolution(ModeLine(lines, k)).Some?
    {
      RenderPairAt(ms, k);
    }
  }

  lemma RenderValueAt(ms: seq<Monitor>, k: nat)
    requires k < |ms| && IsTrimmed(ms[k].name)
    requires ParseMonitors(Render(ms)).Ok? && k < |ParseMonitors(Render(ms)).value|
    ensures ParseMonitors(Render(ms)).value[k] == ms[k]
  {
    ParseMonitorsAt(Render(ms), k);
    RenderPairAt(ms, k);
  }

  /** Parsing reads back every list of monitors whose names carry no
      surrounding whitespace, in order and with nothing lost. */
  lemma RenderParses(ms: seq<Monitor>)
    requires forall k :: 0 <= k < |ms| ==> IsTrimmed(ms[k].name)
    ensures ParseMonitors(Render(ms)) == Ok(ms)
  {
    var lines := Render(ms);
    RenderModesParse(ms);
    ParseMonitorsOk(lines);
    var r := ParseMonitors(lines).value;
    ParsePairsLength(TrimAll(lines), 0, ParseResolution);
    assert |r| == |ms|;
    forall k | 0 <= k < |ms|
      ensures r[k] == ms[k]
    {
      RenderValueAt(ms, k);
    }
    assert r == ms;
  }

  // ---------------------------------------------------------------------
  // list_monitors

  const Header: string := "Available monitors:"

  /** The line `println!("{}: {}x{}", …)` prints for one monitor. */
  function ReportLine(m: Monitor): string {
    m.name + ": " + Format(m.resolution.0) + "x" + Format(m.resolution.1)
  }

  function Report(ms: seq<Monitor>): (out: seq<string>)
    ensures |out| == |ms|
    ensures forall k :: 0 <= k < |ms| ==> out[k] == ReportLine(ms[k])
  {
    if |ms| == 0 then [] else [ReportLine(ms[0])] + Report(ms[1..])
  }

  /** `line` is what `"{}: {}x{}"` prints for `m`: the name, then the width
      and the height as canonical numerals. */
  ghost predicate PrintsMonitor(line: string, m: Monitor) {
    exists w: string, h: string ::
      && IsCanonical(w) && Value(w) == m.resolution.0
      && IsCanonical(h) && Value(h) == m.resolution.1
      && line == m.name + ": " + w + "x" + h
  }

  /** A monitor has one printed line only: canonical numerals are unique. */
  lemma PrintsMonitorUnique(line1: string, line2: string, m: Monitor)
    requires PrintsMonitor(line1, m) && PrintsMonitor(line2, m)
    ensures line1 == line2
  {
    var w1, h1 :| && IsCanonical(w1) && Value(w1) == m.resolution.0
                  && IsCanonical(h1) && Value(h1) == m.resolution.1
                  && line1 == m.name + ": " + w1 + "x" + h1;
    var w2, h2 :| && IsCanonical(w2) && Value(w2) == m.resolution.0
                  && IsCanonical(h2) && Value(h2) == m.resolution.1
                  && line2 == m.name + ": " + w2 + "x" + h2;
    FormatValue(w1);
    FormatValue(w2);
    FormatValue(h1);
    FormatValue(h2);
  }

  /** `list_monitors` on a discovered list: `NoMonitorFound` for an empty
      list, otherwise the printed lines, a header then one `"name: WxH"` line
      per monitor in order, whose `WxH` reads back as that monitor's mode. */
  function ListMonitors(ms: seq<Monitor>): (r: Result<seq<string>, Failure>)
    ensures r == Err(NoMonitorFound) <==> |ms| == 0
    ensures r.Ok? <==> |ms| > 0
    ensures r.Ok? ==> |r.value| == |ms| + 1 && r.value[0] == Header
    ensures r.Ok? ==> forall k :: 0 <= k < |ms| ==> PrintsMonitor(r.value[k + 1], ms[k])
    ensures r.Ok? ==> forall k :: 0 <= k < |ms| ==>
                        exists wh :: r.value[k + 1] == ms[k].name + ": " + wh
                                     && ParseResolution(wh) == Some(ms[k].resolution)
  {
    if |ms| > 0 then
      var out := [Header] + Report(ms);
      assert forall k :: 0 <= k < |ms| ==>
               && PrintsMonitor(out[k + 1], ms[k])
               && exists wh :: out[k + 1] == ms[k].name + ": " + wh
                               && ParseResolution(wh) == Some(ms[k].resolution) by {
        forall k | 0 <= k < |ms|
          ensures PrintsMonitor(out[k + 1], ms[k])
          ensures out[k + 1] == ms[k].name + ": " + ms[k].ToString()
          ensures ParseResolution(ms[k].ToString()) == Some(ms[k].resolution)
        {
          ReportLinePrints(ms[k]);
          ResolutionRoundTrip(ms[k]);
        }
      }
      Ok(out)
    else
      Err(NoMonitorFound)
  }

  /** The printed line is the exact `"{}: {}x{}"` text, and it ends in the
      monitor's `to_string`. */
  lemma ReportLinePrints(m: Monitor)
    ensures PrintsMonitor(ReportLine(m), m)
    ensures ReportLine(m) == m.name + ": " + m.ToString()
  {
    var w, h := Format(m.resolution.0), Format(m.resolution.1);
    assert IsCanonical(w) && Value(w) == m.resolution.0;
    assert IsCanonical(h) && Value(h) == m.resolution.1;
    assert ReportLine(m) == m.name + ": " + w + "x" + h;
  }

  // ---------------------------------------------------------------------
  // split_screen

  /** A spawned process: the program and its argument vector. */
  datatype Command = Command(program: string, args: seq<string>)

  /** The argument vector given to `xrandr`: both outputs with their modes,
      then the secondary placed relative to the primary by name. */
  function XrandrArgs(primary: Monitor, secondary: Monitor, pos: Position): seq<string> {
    [ "--output", primary.name, "--mode", primary.ToString()
    , "--output", secondary.name, "--mode", secondary.ToString()
    , pos.AsXrandrArg(), primary.name ]
  }

  /** Reads an `xrandr` argument vector of that shape back into the two
      monitors and the position. */
  function ReadArrangement(args: seq<string>): Option<(Monitor, Monitor, Position)> {
    if |args| == 10 && args[0] == "--output" && args[2] == "--mode"
       && args[4] == "--output" && args[6] == "--mode" && args[9] == args[1]
    then
      match (ParseResolution(args[3]), ParseResolution(args[7]), PositionOfFlag(args[8]))
      case (Some(pr), Some(sr), Some(pos)) => Some((Monitor(args[1], pr), Monitor(args[5], sr), pos))
      case _ => None
    else
      None
  }

  /** `ReadArrangement` undoes `XrandrArgs`: the vector names both monitors
      with their modes, and the flag, relative to the primary, is `pos`. */
  lemma ArrangementRoundTrip(primary: Monitor, secondary: Monitor, pos: Position)
    ensures ReadArrangement(XrandrArgs(primary, secondary, pos)) == Some((primary, secondary, pos))
  {
    ResolutionRoundTrip(primary);
    ResolutionRoundTrip(secondary);
  }

  /** `split_screen` on a discovered list: `NoMonitorFound` for no monitor,
      nothing to run for a single one, and otherwise `xrandr` arranging the
      first two monitors as asked, followed by `feh` setting the wallpaper. */
  function SplitScreen(ms: seq<Monitor>, path: string, pos: Position): (r: Result<seq<Command>, Failure>)
    ensures r == Err(NoMonitorFound) <==> |ms| == 0
    ensures r == Ok([]) <==> |ms| == 1
    ensures |ms| >= 2 ==> r.Ok? && |r.value| == 2
    ensures |ms| >= 2 ==> r.value[0].program == "xrandr"
                          && ReadArrangement(r.value[0].args) == Some((ms[0], ms[1], pos))
    ensures |ms| >= 2 ==> r.value[0] == Command("xrandr", XrandrArgs(ms[0], ms[1], pos))
    ensures |ms| >= 2 ==> r.value[1] == Command("feh", ["--bg-scale", path])
  {
    if |ms| >= 2 then
      ArrangementRoundTrip(ms[0], ms[1], pos);
      Ok([Command("xrandr", XrandrArgs(ms[0], ms[1], pos)), Command("feh", ["--bg-scale", path])])
    else if |ms| == 1 then
      Ok([])
    else
      Err(NoMonitorFound)
  }

  /** The `xrandr` argument vector is exactly
      `--output P --mode WxH --output A --mode WxH <flag> P`, built from the
      first two monitors only, with the flag naming the primary. */
  lemma SplitScreenArgs(ms: seq<Monitor>, path: string, pos: Position)
    requires |ms| >= 2
    ensures SplitScreen(ms, path, pos)
         == Ok([ Command("xrandr", [ "--output", ms[0].name, "--mode", ms[0].ToString()
                                   , "--output", ms[1].name, "--mode", ms[1].ToString()
                                   , pos.AsXrandrArg(), ms[0].name ])
               , Command("feh", ["--bg-scale", path]) ])
    ensures SplitScreen(ms, path, pos) == SplitScreen(ms[..2], path, pos)
  {
  }

  // ---------------------------------------------------------------------
  // The two entry points, from the discovery output on

  /** `list_monitors`: discovery, then the report. A discovery panic comes
      back unchanged, and `NoMonitorFound` is reported exactly when the
      discovery output has no lines at all. */
  function ListMonitorsRun(lines: seq<string>): (r: Result<seq<string>, Failure>)
    ensures r == Err(NoMonitorFound) <==> |lines| == 0
    ensures r.Ok? <==> ParseMonitors(lines).Ok? && |lines| > 0
    ensures r.Ok? ==> |r.value| == |lines| / 2 + 1 && r.value[0] == Header
    ensures ParseMonitors(lines).Err? ==> r == Err(ParseMonitors(lines).error)
  {
    ParseMonitorsOk(lines);
    match ParseMonitors(lines)
    case Err(e) => Err(e)
    case Ok(ms) => ParseMonitorsValue(lines); ListMonitors(ms)
  }

  /** `split_screen`: discovery, then the arrangement. A discovery panic
      comes back unchanged. Only one pair of lines means nothing is run; two
      pairs or more mean both commands. */
  function SplitScreenRun(lines: seq<string>, path: string, pos: Position): (r: Result<seq<Command>, Failure>)
    ensures r == Err(NoMonitorFound) <==> |lines| == 0
    ensures r == Ok([]) <==> ParseMonitors(lines).Ok? && |lines| == 2
    ensures r.Ok? && r.value != [] <==> ParseMonitors(lines).Ok? && |lines| >= 4
    ensures ParseMonitors(lines).Err? ==> r == Err(ParseMonitors(lines).error)
  {
    ParseMonitorsOk(lines);
    match ParseMonitors(lines)
    case Err(e) => Err(e)
    case Ok(ms) => ParseMonitorsValue(lines); SplitScreen(ms, path, pos)
  }

  /** The monitor that pair `k` of the discovery output describes, when its
      mode line holds a resolution. */
  function PairAsMonitor(lines: seq<string>, k: nat): Monitor
    requires 2 * k + 1 < |lines| && ParseResolution(ModeLine(lines, k)).Some?
  {
    Monitor(NameLine(lines, k), ParseResolution(ModeLine(lines, k)).value)
  }

  /** Line `k + 1` that `list_monitors` prints is the exact `"name: WxH"`
      text for the monitor of pair `k`. */
  lemma ListMonitorsRunLine(lines: seq<string>, k: nat)
    requires ListMonitorsRun(lines).Ok? && k < |lines| / 2
    ensures 2 * k + 1 < |lines| && ParseResolution(ModeLine(lines, k)).Some?
    ensures PrintsMonitor(ListMonitorsRun(lines).value[k + 1], PairAsMonitor(lines, k))
  {
    var ms := ParseMonitors(lines).value;
    ParsePairsLength(TrimAll(lines), 0, ParseResolution);
    ParseMonitorsAt(lines, k);
    assert ListMonitorsRun(lines) == ListMonitors(ms);
  }

  /** With two pairs or more, `split_screen` arranges the monitors of the
      first two pairs with `xrandr`, then sets the wallpaper. */
  lemma SplitScreenRunCommands(lines: seq<string>, path: string, pos: Position)
    requires ParseMonitors(lines).Ok? && |lines| >= 4
    ensures ParseResolution(ModeLine(lines, 0)).Some? && ParseResolution(ModeLine(lines, 1)).Some?
    ensures SplitScreenRun(lines, path, pos)
         == Ok([ Command("xrandr", XrandrArgs(PairAsMonitor(lines, 0), PairAsMonitor(lines, 1), pos))
               , Command("feh", ["--bg-scale", path]) ])
  {
    var ms := ParseMonitors(lines).value;
    ParsePairsLength(TrimAll(lines), 0, ParseResolution);
    ParseMonitorsAt(lines, 0);
    ParseMonitorsAt(lines, 1);
    assert SplitScreenRun(lines, path, pos) == SplitScreen(ms, path, pos);
  }

  // ---------------------------------------------------------------------
  // Worked examples

  /** Two connected outputs as the discovery pipeline prints them. */
  lemma TwoMonitorsExample()
    ensures ParseMonitors(["DP-1", "1920x1080", "HDMI-1", "2560x1440"])
         == Ok([Monitor("DP-1", (1920, 1080)), Monitor("HDMI-1", (2560, 1440))])
  {
    var ms := [Monitor("DP-1", (1920, 1080)), Monitor("HDMI-1", (2560, 1440))];
    TwoMonitorsRender(ms);
    ExampleNames();
    assert IsTrimmed(ms[0].name) && IsTrimmed(ms[1].name);
    assert forall k :: 0 <= k < |ms| ==> IsTrimmed(ms[k].name);
    RenderParses(ms);
  }

  lemma TwoMonitorsRender(ms: seq<Monitor>)
    requires ms == [Monitor("DP-1", (1920, 1080)), Monitor("HDMI-1", (2560, 1440))]
    ensures Render(ms) == ["DP-1", "1920x1080", "HDMI-1", "2560x1440"]
  {
    ExampleModes();
    RenderAt(ms, 0);
    RenderAt(ms, 1);
  }

  lemma ExampleNames()
    ensures IsTrimmed("DP-1") && IsTrimmed("HDMI-1")
  {
    assert !IsWhitespace('D') && !IsWhitespace('H') && !IsWhitespace('1');
  }

  lemma ExampleModes()
    ensures Monitor("DP-1", (1920, 1080)).ToString() == "1920x1080"
    ensures Monitor("HDMI-1", (2560, 1440)).ToString() == "2560x1440"
  {
    FirstMonitorNumerals();
    SecondMonitorNumerals();
  }

  /** `{}` on the first example monitor's mode, one digit at a time. */
  lemma FirstMonitorNumerals()
    ensures Format(1920) == "1920" && Format(1080) == "1080"
  {
    assert Format(1) == "1";
    assert Format(19) == Format(1) + ['9'];
    assert Format(192) == Format(19) + ['2'];
    assert Format(1920) == Format(192) + ['0'];
    assert Format(10) == Format(1) + ['0'];
    assert Format(108) == Format(10) + ['8'];
    assert Format(1080) == Format(108) + ['0'];
  }

  /** `{}` on the second example monitor's mode, one digit at a time. */
  lemma SecondMonitorNumerals()
    ensures Format(2560) == "2560" && Format(1440) == "1440"
  {
    assert Format(2) == "2";
    assert Format(25) == Format(2) + ['5'];
    assert Format(256) == Format(25) + ['6'];
    assert Format(2560) == Format(256) + ['0'];
    assert Format(1) == "1";
    assert Format(14) == Format(1) + ['4'];
    assert Format(144) == Format(14) + ['4'];
    assert Format(1440) == Format(144) + ['0'];
  }

  /** A mode line without any number panics at the slice, on line 1. */
  lemma NoModeExample()
    ensures ParseMonitors(["HDMI-1", "DP-2"]) == Err(Panicked(SliceTooShort(1)))
  {
    var lines := ["HDMI-1", "DP-2"];
    assert !IsWhitespace('D') && !IsWhitespace('2');
    TrimTrimmed("DP-2");
    SplitSepFree("DP-2", 'x');
    assert Numbers(["DP-2"]) == [];
    ParseMonitorsTooShort(lines, 0);
  }

  /** A trailing name without a mode line panics indexing past the end. */
  lemma OddLinesExample()
    ensures ParseMonitors(["DP-1", "1920x1080", "HDMI-1"]) == Err(Panicked(IndexOutOfBounds(3, 3)))
  {
    var lines := ["DP-1", "1920x1080", "HDMI-1"];
    var m := Monitor("DP-1", (1920, 1080));
    ExampleModes();
    ToStringTrimmed(m);
    ResolutionRoundTrip(m);
    assert ModeLine(lines, 0) == m.ToString();
    assert ModesParse(lines, 1) by {
      forall k: nat | k < 1
        ensures 2 * k + 1 < |lines| && ParseResolution(ModeLine(lines, k)).Some?
      {
        assert k == 0;
      }
    }
    ParseMonitorsOddLength(lines);
  }

  /** The default arrangement of those two outputs: HDMI-1 right of DP-1. */
  lemma TwoMonitorsSplitExample(path: string)
    ensures SplitScreenRun(["DP-1", "1920x1080", "HDMI-1", "2560x1440"], path, Position.Default())
         == Ok([ Command("xrandr", [ "--output", "DP-1", "--mode", "1920x1080"
                                   , "--output", "HDMI-1", "--mode", "2560x1440"
                                   , "--right-of", "DP-1" ])
               , Command("feh", ["--bg-scale", path]) ])
  {
    TwoMonitorsExample();
    ExampleModes();
    SplitScreenArgs([Monitor("DP-1", (1920, 1080)), Monitor("HDMI-1", (2560, 1440))], path, Right);
  }
}
