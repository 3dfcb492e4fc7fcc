/**
 * The command loop of `main`: one integer, the current decimal index, which
 * each command either moves (with clamping) or leaves alone, and the data
 * each command hands to the display and export collaborators.
 */
module Session {
  import opened HexCodec
  import opened DecimalText
  import opened ColorMath

  datatype Option<T> = None | Some(value: T)

  // ---------------------------------------------------------------------
  // Commands

  datatype Command =
    | Next | Previous | JumpHex | JumpIndex | RandomJump
    | MixHex | MixRandom | MixIndex | Grad | Scheme | Export
    | Blindness | RandomScheme | Help | Quit | Unknown

  /** The word that selects a command at the prompt. */
  function Token(c: Command): string
    requires !c.Unknown?
  {
    match c
    case Next => "n"
    case Previous => "p"
    case JumpHex => "j"
    case JumpIndex => "i"
    case RandomJump => "r"
    case MixHex => "m"
    case MixRandom => "mixr"
    case MixIndex => "mixi"
    case Grad => "grad"
    case Scheme => "cs"
    case Export => "export"
    case Blindness => "cb"
    case RandomScheme => "rcs"
    case Help => "help"
    case Quit => "q"
  }

  /**
   * The `if`/`elif` chain of `main` on the stripped, lower-cased command
   * line; anything that is none of the command words is unknown.
   */
  function ParseCommand(word: string): (c: Command)
    ensures !c.Unknown? ==> Token(c) == word
    ensures c.Unknown? ==> forall k: Command :: !k.Unknown? ==> Token(k) != word
  {
    if word == "n" then Next
    else if word == "p" then Previous
    else if word == "j" then JumpHex
    else if word == "i" then JumpIndex
    else if word == "r" then RandomJump
    else if word == "m" then MixHex
    else if word == "mixr" then MixRandom
    else if word == "mixi" then MixIndex
    else if word == "grad" then Grad
    else if word == "cs" then Scheme
    else if word == "export" then Export
    else if word == "cb" then Blindness
    else if word == "rcs" then RandomScheme
    else if word == "help" then Help
    else if word == "q" then Quit
    else Unknown
  }

  lemma ParseToken(c: Command)
    requires !c.Unknown?
    ensures ParseCommand(Token(c)) == c
  {
  }

  /** `s.lstrip("#")`: every leading `#` removed. */
  function LStripHash(s: string): (t: string)
    ensures |t| <= |s| && t == s[|s| - |t|..]
    ensures t == [] || t[0] != '#'
    ensures forall k :: 0 <= k < |s| - |t| ==> s[k] == '#'
  {
    if s != [] && s[0] == '#' then LStripHash(s[1..]) else s
  }

  /** The step count of `grad`: `int(steps) if steps.isdigit() else 5`. */
  function StepCount(answer: string): (n: nat)
    ensures !IsDigits(answer) ==> n == 5
    ensures IsDigits(answer) && (|answer| > 1 ==> answer[0] != '0') ==> DecimalString(n) == answer
  {
    if IsDigits(answer) then
      if |answer| > 1 ==> answer[0] != '0' then DecimalStringOfParse(answer); ParseDecimal(answer)
      else ParseDecimal(answer)
    else 5
  }

  /** The second operand of `mixi`: `f"{int(idx2):06X}"`, with no clamping. */
  function MixIndexOperand(answer: string): (h: string)
    requires IsDigits(answer)
    ensures HasHexPrefix(h)
    ensures ParseDecimal(answer) <= MAX_DEC ==> h == IndexToHex(ParseDecimal(answer))
    ensures ParseDecimal(answer) > MAX_DEC ==> |h| > 6 && h[0] != '0'
    ensures IsCanonical(h) && AllHexDigits(h) && ParseHex(h) == ParseDecimal(answer)
  {
    var h := FormatHex(ParseDecimal(answer), 6);
    assert forall k :: 0 <= k < 6 ==> h[..6][k] == h[k];
    assert Pow16(6) == MAX_DEC + 1;
    h
  }

  /** An index past the range is not clamped: its leading six digits are mixed. */
  lemma MixIndexPastRange()
    ensures FormatHex(16777216, 6) == "1000000"
    ensures HexToRgb(FormatHex(16777216, 6)) == Rgb(16, 0, 0)
  {
    PastRangeDigits();
    PastRangeChannels("1000000");
  }

  lemma PastRangeDigits()
    ensures FormatHex(16777216, 6) == "1000000"
  {
    assert FormatHex(1, 0) == "1";
    assert FormatHex(16, 1) == "10";
    assert FormatHex(256, 2) == "100";
    assert FormatHex(4096, 3) == "1000";
    assert FormatHex(65536, 4) == "10000";
    assert FormatHex(1048576, 5) == "100000";
  }

  lemma PastRangeChannels(h: string)
    requires h == "1000000"
    ensures HasHexPrefix(h) && HexToRgb(h) == Rgb(16, 0, 0)
  {
    assert h[..6] == "100000";
    assert h[0..2] == "10" && h[2..4] == "00" && h[4..6] == "00";
    assert ParseHex("10") == 16 by { assert "10"[..1] == "1"; assert "1"[..0] == []; }
    assert ParseHex("00") == 0 by { assert "00"[..1] == "0"; assert "0"[..0] == []; }
  }

  // ---------------------------------------------------------------------
  // The transition of the current index

  /**
   * The new value of `current_dec` after one command, given the answer to
   * the command's prompt and the random index it may draw.
   */
  function NextIndex(cur: Index, cmd: Command, answer: string, draw: int): Index
    requires 0 <= draw <= MAX_DEC
  {
    match cmd
    case Next => Min(cur + 1, MAX_DEC)
    case Previous => Max(cur - 1, 0)
    case JumpHex =>
      var hx := LStripHash(answer);
      if IsValidHex(hx) then UpperValid(hx); HexToIndex(Upper(hx)) else cur
    case JumpIndex =>
      if IsDigits(answer) then Min(Max(ParseDecimal(answer), 0), MAX_DEC) else cur
    case RandomJump => draw
    case _ => cur
  }

  /** Does the program stop after this command: `q`, or a gradient of zero steps? */
  predicate Halts(cmd: Command, answer: string, stepsAnswer: string)
  {
    match cmd
    case Quit => true
    case Grad => DividesByZero(answer, stepsAnswer)
    case _ => false
  }

  /** `grad` with a valid code and a step count of 0 raises `ZeroDivisionError`. */
  predicate DividesByZero(answer: string, stepsAnswer: string)
  {
    IsValidHex(LStripHash(answer)) && StepCount(stepsAnswer) == 0
  }

  /** `n` and `p` move by one and stop at the ends of the range. */
  lemma NextPreviousClamp(cur: Index, answer: string, draw: int)
    requires 0 <= draw <= MAX_DEC
    ensures NextIndex(cur, Next, answer, draw) == (if cur < MAX_DEC then cur + 1 else MAX_DEC)
    ensures NextIndex(cur, Previous, answer, draw) == (if cur > 0 then cur - 1 else 0)
    ensures NextIndex(MAX_DEC, Next, answer, draw) == MAX_DEC
    ensures NextIndex(0, Previous, answer, draw) == 0
  {
  }

  /** `j` moves to exactly the code given, and refuses anything else. */
  lemma JumpHexMeaning(cur: Index, answer: string, draw: int)
    requires 0 <= draw <= MAX_DEC
    ensures var hx, n := LStripHash(answer), NextIndex(cur, JumpHex, answer, draw);
      if IsValidHex(hx) then IndexToHex(n) == Upper(hx) && Pack(HexToRgb(hx)) == n else n == cur
  {
    var hx := LStripHash(answer);
    if IsValidHex(hx) {
      UpperValid(hx);
      IndexHexRoundTrip(hx);
    }
  }

  /** `i` with digits goes to the nearest index in range; anything else is refused. */
  lemma JumpIndexMeaning(cur: Index, answer: string, draw: int)
    requires 0 <= draw <= MAX_DEC
    ensures var n := NextIndex(cur, JumpIndex, answer, draw);
      if IsDigits(answer) then
        (ParseDecimal(answer) <= MAX_DEC ==> n == ParseDecimal(answer)) &&
        (ParseDecimal(answer) > MAX_DEC ==> n == MAX_DEC)
      else n == cur
  {
  }

  /** Only `n`, `p`, `j`, `i` and `r` move the current index. */
  lemma OtherCommandsKeepIndex(cur: Index, cmd: Command, answer: string, draw: int)
    requires 0 <= draw <= MAX_DEC
    requires !(cmd.Next? || cmd.Previous? || cmd.JumpHex? || cmd.JumpIndex? || cmd.RandomJump?)
    ensures NextIndex(cur, cmd, answer, draw) == cur
  {
  }

  // ---------------------------------------------------------------------
  // What a command produces

  /** The code, negative and index shown at the top of every round. */
  datatype View = View(hex: string, negative: string, index: Index)

  function CurrentView(cur: Index): (v: View)
    ensures IsValidHex(v.hex) && IsCanonical(v.hex) && HexToIndex(v.hex) == cur
    ensures IsValidHex(v.negative) && IsCanonical(v.negative)
    ensures HexToRgb(v.negative) == Complement(HexToRgb(v.hex))
    ensures v.index == cur
  {
    View(IndexToHex(cur), IndexToHex(Negative(cur)), cur)
  }

  datatype Effect =
    | Moved
    | InvalidHex
    | InvalidIndex
    | Mixed(mix: Mix)
    | GradientMade(codes: seq<string>, exportName: string)
    | SchemeShown(entries: seq<NamedColor>)
    | ColorExported(exportName: string, index: Index)
    | BlindnessShown
    | RandomSchemeShown(baseHex: string, entries: seq<NamedColor>)
    | HelpShown
    | UnknownCommand
    | Goodbye
    | DivisionByZero

  /**
   * What `m`, `mixr` and `mixi` produce from the current code `hex`: the mix
   * with the typed code, with the drawn index, or with the typed index; a
   * typed operand that is not valid is refused.
   */
  predicate MixResponse(hex: string, cmd: Command, answer: string, draw: int, effect: Effect)
    requires IsValidHex(hex) && 0 <= draw <= MAX_DEC
  {
    var hx := LStripHash(answer);
    match cmd
    case MixHex =>
      if IsValidHex(hx) then UpperValid(hx); effect == Mixed(MixColors(hex, Upper(hx)))
      else effect == InvalidHex
    case MixRandom => effect == Mixed(MixColors(hex, IndexToHex(draw)))
    case MixIndex =>
      if IsDigits(answer) then effect == Mixed(MixColors(hex, MixIndexOperand(answer)))
      else effect == InvalidIndex
    case _ => false
  }

  method MixCommand(hex: string, cmd: Command, answer: string, draw: int) returns (effect: Effect)
    requires IsValidHex(hex) && 0 <= draw <= MAX_DEC
    requires cmd.MixHex? || cmd.MixRandom? || cmd.MixIndex?
    ensures MixResponse(hex, cmd, answer, draw, effect)
    ensures effect.Mixed? ==> IsValidHex(effect.mix.mixed)
  {
    match cmd
    case MixHex =>
      var hx := LStripHash(answer);
      if IsValidHex(hx) {
        UpperValid(hx);
        effect := Mixed(MixColors(hex, Upper(hx)));
      } else {
        effect := InvalidHex;
      }
    case MixRandom =>
      effect := Mixed(MixColors(hex, IndexToHex(draw)));
    case MixIndex =>
      if IsDigits(answer) {
        effect := Mixed(MixColors(hex, MixIndexOperand(answer)));
      } else {
        effect := InvalidIndex;
      }
  }

  /**
   * What `grad` produces from the current code `hex`: the gradient to the
   * typed code with the typed (or default) step count, its export file name,
   * a refusal of an invalid code, or the division by zero of a zero step count.
   */
  predicate GradientResponse(hex: string, answer: string, stepsAnswer: string, effect: Effect)
    requires IsValidHex(hex)
  {
    var hx, steps := LStripHash(answer), StepCount(stepsAnswer);
    if !IsValidHex(hx) then effect == InvalidHex
    else if steps == 0 then effect == DivisionByZero
    else
      UpperValid(hx);
      effect == GradientMade(Gradient(hex, Upper(hx), steps), GradientFilename(hex, Upper(hx), steps))
  }

  method GradientCommand(hex: string, answer: string, stepsAnswer: string) returns (effect: Effect, running: bool)
    requires IsValidHex(hex)
    ensures GradientResponse(hex, answer, stepsAnswer, effect)
    ensures running == !DividesByZero(answer, stepsAnswer)
  {
    running := true;
    var hx := LStripHash(answer);
    if IsValidHex(hx) {
      var steps := StepCount(stepsAnswer);
      if steps == 0 {
        effect := DivisionByZero;
        running := false;
      } else {
        UpperValid(hx);
        var codes := GenerateGradient(hex, Upper(hx), steps);
        effect := GradientMade(codes, GradientFilename(hex, Upper(hx), steps));
      }
    } else {
      effect := InvalidHex;
    }
  }

  /**
   * What command `cmd` produces from the current code `hex` and index `cur`:
   * a move or the refusal of an invalid operand for the moving commands, and
   * the mix, gradient, scheme, export file or message of the others.
   */
  predicate Response(hex: string, cur: Index, cmd: Command, answer: string, stepsAnswer: string, draw: int, effect: Effect)
    requires hex == IndexToHex(cur) && 0 <= draw <= MAX_DEC
  {
    match cmd
    case Next => effect == Moved
    case Previous => effect == Moved
    case JumpHex => effect == if IsValidHex(LStripHash(answer)) then Moved else InvalidHex
    case JumpIndex => effect == if IsDigits(answer) then Moved else InvalidIndex
    case RandomJump => effect == Moved
    case MixHex => MixResponse(hex, cmd, answer, draw, effect)
    case MixRandom => MixResponse(hex, cmd, answer, draw, effect)
    case MixIndex => MixResponse(hex, cmd, answer, draw, effect)
    case Grad => GradientResponse(hex, answer, stepsAnswer, effect)
    case Scheme => effect == SchemeShown(HarmonyScheme(HexToRgb(hex)))
    case Export => effect == ColorExported(ExportFilename(hex), cur)
    case Blindness => effect == BlindnessShown
    case RandomScheme => effect.RandomSchemeShown? && IsRandomScheme(draw, effect.baseHex, effect.entries)
    case Help => effect == HelpShown
    case Quit => effect == Goodbye
    case Unknown => effect == UnknownCommand
  }

  /** The commands that move the current index: the new index and what is shown. */
  method Move(cur: Index, cmd: Command, answer: string, draw: int) returns (next: Index, effect: Effect)
    requires 0 <= draw <= MAX_DEC
    requires cmd.Next? || cmd.Previous? || cmd.JumpHex? || cmd.JumpIndex? || cmd.RandomJump?
    ensures next == NextIndex(cur, cmd, answer, draw)
    ensures Response(IndexToHex(cur), cur, cmd, answer, "", draw, effect)
  {
    next, effect := cur, Moved;
    match cmd {
      case Next =>
        next := Min(cur + 1, MAX_DEC);
      case Previous =>
        next := Max(cur - 1, 0);
      case JumpHex =>
        var hx := LStripHash(answer);
        if IsValidHex(hx) {
          UpperValid(hx);
          next := HexToIndex(Upper(hx));
        } else {
          effect := InvalidHex;
        }
      case JumpIndex =>
        if IsDigits(answer) {
          next := Min(Max(ParseDecimal(answer), 0), MAX_DEC);
        } else {
          effect := InvalidIndex;
        }
      case RandomJump =>
        next := draw;
    }
  }

  /**
   * What the commands that do not move the current index produce, from the
   * current code `hex` and index `cur`, and whether the loop goes on.
   */
  method Respond(hex: string, cur: Index, cmd: Command, answer: string, stepsAnswer: string, draw: int)
    returns (effect: Effect, running: bool)
    requires hex == IndexToHex(cur) && 0 <= draw <= MAX_DEC
    requires !(cmd.Next? || cmd.Previous? || cmd.JumpHex? || cmd.JumpIndex? || cmd.RandomJump?)
    ensures running == !Halts(cmd, answer, stepsAnswer)
    ensures Response(hex, cur, cmd, answer, stepsAnswer, draw, effect)
  {
    running := true;
    match cmd {
      case MixHex =>
        effect := MixCommand(hex, cmd, answer, draw);
      case MixRandom =>
        effect := MixCommand(hex, cmd, answer, draw);
      case MixIndex =>
        effect := MixCommand(hex, cmd, answer, draw);
      case Grad =>
        effect, running := GradientCommand(hex, answer, stepsAnswer);
      case Scheme =>
        effect := SchemeShown(HarmonyScheme(HexToRgb(hex)));
      case Export =>
        effect := ColorExported(ExportFilename(hex), cur);
      case Blindness =>
        effect := BlindnessShown;
      case RandomScheme =>
        var baseHex, entries := GenerateRandomScheme(draw);
        effect := RandomSchemeShown(baseHex, entries);
      case Help =>
        effect := HelpShown;
      case Quit =>
        effect := Goodbye;
        running := false;
      case Unknown =>
        effect := UnknownCommand;
    }
  }

  // ---------------------------------------------------------------------
  // The session

  class Explorer {
    /** `current_dec`. */
    var current: int

    ghost predicate Valid()
      reads this
    {
      0 <= current <= MAX_DEC
    }

    /** The session begins at the index of the start code. */
    constructor (start: int)
      requires 0 <= start <= MAX_DEC
      ensures Valid() && current == start
    {
      current := start;
    }

    /** One round of the `while True` loop of `main`, after the command is read. */
    method Step(cmd: Command, answer: string, stepsAnswer: string, draw: int)
      returns (effect: Effect, running: bool)
      requires Valid() && 0 <= draw <= MAX_DEC
      modifies this
      ensures Valid()
      ensures current == NextIndex(old(current), cmd, answer, draw)
      ensures running == !Halts(cmd, answer, stepsAnswer)
      ensures Response(IndexToHex(old(current)), old(current), cmd, answer, stepsAnswer, draw, effect)
    {
      if cmd.Next? || cmd.Previous? || cmd.JumpHex? || cmd.JumpIndex? || cmd.RandomJump? {
        current, effect := Move(current, cmd, answer, draw);
        running := true;
      } else {
        effect, running := Respond(IndexToHex(current), current, cmd, answer, stepsAnswer, draw);
      }
    }

    /**
     * The `while True` loop of `main` over a script of command lines: it
     * stops after `q`, after a gradient of zero steps, or when the script
     * runs out. `before[k]` is the index at the start of round `k`, and
     * `effects[k]` is what that round produced from it.
     */
    method Run(script: seq<Line>) returns (effects: seq<Effect>, ghost before: seq<Index>)
      requires Valid() && DrawsInRange(script)
      modifies this
      ensures Valid()
      ensures current == Replay(old(current), script)
      ensures |effects| == Consumed(script) && |before| == |effects| + 1
      ensures before[0] == old(current) && before[|effects|] == current
      ensures forall k :: 0 <= k < |effects| ==> Round(script[k], before[k], before[k + 1], effects[k])
    {
      var k := 0;
      var running := true;
      effects := [];
      before := [current];
      while k < |script| && running
        invariant 0 <= k <= |script| && Valid()
        invariant running ==> Replay(old(current), script) == Replay(current, script[k..])
        invariant running ==> Consumed(script) == k + Consumed(script[k..])
        invariant !running ==> Replay(old(current), script) == current && Consumed(script) == k
        invariant |effects| == k && |before| == k + 1
        invariant before[0] == old(current) && before[k] == current
        invariant forall j :: 0 <= j < k ==> Round(script[j], before[j], before[j + 1], effects[j])
      {
        var line := script[k];
        assert script[k..][0] == line && script[k..][1..] == script[k + 1..];
        var effect;
        effect, running := Step(ParseCommand(line.command), line.answer, line.stepsAnswer, line.draw);
        AppendRound(script, before, effects, current, effect);
        effects := effects + [effect];
        before := before + [current];
        k := k + 1;
      }
    }
  }

  /** Rounds `0` to `|effects| - 1` extended by one more round. */
  lemma AppendRound(script: seq<Line>, before: seq<Index>, effects: seq<Effect>, to: Index, effect: Effect)
    requires DrawsInRange(script) && |effects| < |script| && |before| == |effects| + 1
    requires forall j :: 0 <= j < |effects| ==> Round(script[j], before[j], before[j + 1], effects[j])
    requires Round(script[|effects|], before[|effects|], to, effect)
    ensures forall j :: 0 <= j < |effects| + 1 ==>
      Round(script[j], (before + [to])[j], (before + [to])[j + 1], (effects + [effect])[j])
  {
    var before', effects' := before + [to], effects + [effect];
    forall j | 0 <= j < |effects| + 1
      ensures Round(script[j], before'[j], before'[j + 1], effects'[j])
    {
      if j < |effects| {
        assert before'[j] == before[j] && before'[j + 1] == before[j + 1] && effects'[j] == effects[j];
      } else {
        assert before'[j] == before[j] && before'[j + 1] == to && effects'[j] == effect;
      }
    }
  }

  /** One round's input: the command line, the answers to its prompts and its random draw. */
  datatype Line = Line(command: string, answer: string, stepsAnswer: string, draw: int)

  /** One round of `line` takes the index from `from` to `to` and produces `effect`. */
  predicate Round(line: Line, from: Index, to: Index, effect: Effect)
    requires 0 <= line.draw <= MAX_DEC
  {
    var cmd := ParseCommand(line.command);
    to == NextIndex(from, cmd, line.answer, line.draw) &&
    Response(IndexToHex(from), from, cmd, line.answer, line.stepsAnswer, line.draw, effect)
  }

  predicate DrawsInRange(script: seq<Line>)
  {
    forall k :: 0 <= k < |script| ==> 0 <= script[k].draw <= MAX_DEC
  }

  predicate Halting(line: Line)
  {
    Halts(ParseCommand(line.command), line.answer, line.stepsAnswer)
  }

  /** The current index after running `script` from `cur`, up to the first halting round. */
  function Replay(cur: Index, script: seq<Line>): Index
    requires DrawsInRange(script)
    decreases |script|
  {
    if script == [] then cur
    else
      var line := script[0];
      var next := NextIndex(cur, ParseCommand(line.command), line.answer, line.draw);
      if Halting(line) then next else Replay(next, script[1..])
  }

  /** How many rounds run: up to and including the first halting one. */
  function Consumed(script: seq<Line>): (n: nat)
    ensures n <= |script|
  {
    if script == [] then 0
    else if Halting(script[0]) then 1
    else 1 + Consumed(script[1..])
  }

  /** A script of commands that do not move the index leaves it where it was. */
  lemma {:induction false} ReplayStaysPut(cur: Index, script: seq<Line>)
    requires DrawsInRange(script)
    requires forall k :: 0 <= k < |script| ==>
      var c := ParseCommand(script[k].command);
      !(c.Next? || c.Previous? || c.JumpHex? || c.JumpIndex? || c.RandomJump?)
    ensures Replay(cur, script) == cur
    decreases |script|
  {
    if script != [] {
      OtherCommandsKeepIndex(cur, ParseCommand(script[0].command), script[0].answer, script[0].draw);
      ReplayStaysPut(cur, script[1..]);
    }
  }

  /** Nothing after a `q` is run: the replay stops in place after one round. */
  lemma {:induction false} ReplayStopsAtQuit(cur: Index, script: seq<Line>)
    requires DrawsInRange(script) && script != [] && ParseCommand(script[0].command) == Quit
    ensures Replay(cur, script) == cur && Consumed(script) == 1
  {
  }

  /**
   * `ask_start_hex`: the prompt repeats until a valid code is typed; the
   * result is the index of the first valid attempt.
   */
  method AskStartHex(attempts: seq<string>) returns (start: Option<Index>, used: nat)
    ensures start.Some? ==>
      && used < |attempts| && IsValidHex(attempts[used])
      && start.value == Pack(HexToRgb(attempts[used]))
      && forall k :: 0 <= k < used ==> !IsValidHex(attempts[k])
    ensures start.None? ==> used == |attempts| && forall k :: 0 <= k < |attempts| ==> !IsValidHex(attempts[k])
  {
    used := 0;
    while used < |attempts|
      invariant used <= |attempts|
      invariant forall k :: 0 <= k < used ==> !IsValidHex(attempts[k])
    {
      if IsValidHex(attempts[used]) {
        UpperValid(attempts[used]);
        start := Some(HexToIndex(Upper(attempts[used])));
        return;
      }
      used := used + 1;
    }
    start := None;
  }
}
