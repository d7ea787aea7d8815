/** The command line: `Terminal::to_command` turns the typed line into a
    command, and `OutputCommand::execute` expands `$name` variables in the
    text of a `print` command. */
module Commands {
  import opened Colors
  import opened Geometry
  import opened Text

  /** The commands the parser produces. */
  datatype Command =
    | Output(text: string)
    | Undo(times: int)
    | CursorTo(x: int, y: int)
    | ChangeColor(color: Color)
    | DrawLine(b: Point, e: Point)
    | DrawBoundary(b: Point, e: Point)
    | DrawCircle(p: Point, r: nat)
    | FillCircle(p: Point, r: nat)
    | Save(filename: string)

  /** The first word of the line each command comes from. */
  function Word(c: Command): string {
    match c
    case Output(_) => "print"
    case Undo(_) => "undo"
    case CursorTo(_, _) => "cursor"
    case ChangeColor(_) => "color"
    case DrawLine(_, _) => "draw"
    case DrawBoundary(_, _) => "draw"
    case DrawCircle(_, _) => "draw"
    case FillCircle(_, _) => "fill"
    case Save(_) => "save"
  }

  /** What `to_command` does: return a command, return `NULL`, or let a
      `std::invalid_argument` or `std::out_of_range` escape. */
  datatype Parse = Parsed(cmd: Command) | Null | Thrown(error: StoiError)

  /** An `int` converted to `unsigned int`: taken modulo 2^32. */
  function ToUint(n: int): nat { n % Two32 }

  /** An `int` converted to `unsigned char`: taken modulo 256. */
  function ToByte(n: int): Byte { n % 256 }

  /** `stoi` of each token in turn; the first failure is the result. */
  function Ints(ts: seq<string>): (r: Parsed<seq<int>>)
    ensures r.Ok? ==> |r.value| == |ts|
  {
    if ts == [] then Ok([])
    else match Stoi(ts[0])
      case Err(e) => Err(e)
      case Ok(n) =>
        match Ints(ts[1..])
        case Err(e) => Err(e)
        case Ok(ns) => Ok([n] + ns)
  }

  /** The two points of `draw line` / `draw boundary`. */
  function Segment2(ts: seq<string>, boundary: bool): (r: Parse)
    requires |ts| == 4
    ensures r.Parsed? ==> if boundary then r.cmd.DrawBoundary? else r.cmd.DrawLine?
    ensures !r.Null?
  {
    match Ints(ts)
    case Err(e) => Thrown(e)
    case Ok(ns) =>
      var b := Point(ToUint(ns[0]), ToUint(ns[1]));
      var e := Point(ToUint(ns[2]), ToUint(ns[3]));
      Parsed(if boundary then DrawBoundary(b, e) else DrawLine(b, e))
  }

  /** Centre and radius of `draw circle` / `fill circle`. */
  function Circle(ts: seq<string>, fill: bool): (r: Parse)
    requires |ts| == 3
    ensures r.Parsed? ==> if fill then r.cmd.FillCircle? else r.cmd.DrawCircle?
    ensures !r.Null?
  {
    match Ints(ts)
    case Err(e) => Thrown(e)
    case Ok(ns) =>
      var p := Point(ToUint(ns[0]), ToUint(ns[1]));
      Parsed(if fill then FillCircle(p, ToUint(ns[2])) else DrawCircle(p, ToUint(ns[2])))
  }

  /** `Terminal::to_command` on the typed line. An unknown first word
      gives `NULL`, and `invalid_argument` escapes only from the commands
      that do not catch it (all but `color`). */
  function ToCommand(command: string): (r: Parse)
    ensures !Keyword(Split(command, " ")[0]) ==> r == Null
    ensures r == Thrown(InvalidArgument) ==> var w := Split(command, " ")[0];
      w == "undo" || w == "cursor" || w == "draw" || w == "fill"
  {
    var strs := Split(command, " ");
    var n := |strs|;
    if strs[0] == "print" then
      if |command| < 6 then Thrown(OutOfRange) else Parsed(Output(command[6..]))
    else if strs[0] == "undo" then
      if n > 1 then
        match Stoi(strs[1])
        case Err(e) => Thrown(e)
        case Ok(t) => Parsed(Undo(t))
      else Parsed(Undo(1))
    else if strs[0] == "cursor" then
      if n == 1 then Parsed(CursorTo(-1, -1))
      else if n == 3 then
        match Ints(strs[1..3])
        case Err(e) => Thrown(e)
        case Ok(ns) => Parsed(CursorTo(ns[0], ns[1]))
      else Null
    else if strs[0] == "color" then
      if n < 4 then Null
      else
        match Ints(strs[1..4])
        case Err(InvalidArgument) => Null
        case Err(OutOfRange) => Thrown(OutOfRange)
        case Ok(ns) => Parsed(ChangeColor(Color(ToByte(ns[0]), ToByte(ns[1]), ToByte(ns[2]), Plain)))
    else if strs[0] == "draw" then
      if n < 2 then Null
      else if strs[1] == "line" then (if n < 6 then Null else Segment2(strs[2..6], false))
      else if strs[1] == "circle" then (if n < 5 then Null else Circle(strs[2..5], false))
      else if strs[1] == "boundary" then (if n < 6 then Null else Segment2(strs[2..6], true))
      else Null
    else if strs[0] == "fill" then
      if n < 2 then Null
      else if strs[1] == "circle" then (if n < 5 then Null else Circle(strs[2..5], true))
      else Null
    else if strs[0] == "save" then
      if n < 2 then Null else Parsed(Save(strs[1]))
    else Null
  }

  /** The words the parser knows as a first token. */
  predicate Keyword(w: string) {
    w in {"print", "undo", "cursor", "color", "draw", "fill", "save"}
  }

  /** Any other first token gives no command. */
  lemma UnknownIsNull(command: string)
    requires !Keyword(Split(command, " ")[0])
    ensures ToCommand(command) == Null
  {
  }

  /** A parsed command is the one its first word names. */
  lemma ParsedWord(command: string)
    requires ToCommand(command).Parsed?
    ensures Split(command, " ")[0] == Word(ToCommand(command).cmd)
  {
    var w := Split(command, " ")[0];
    if w == "print" {
    } else if w == "undo" {
    } else if w == "cursor" {
    } else if w == "color" {
    } else if w == "draw" {
    } else if w == "fill" {
    } else {
      assert w == "save";
    }
  }

  /** A cursor command comes only from one token (show the position) or
      three tokens (move the cursor). */
  lemma CursorArity(command: string)
    requires ToCommand(command).Parsed? && ToCommand(command).cmd.CursorTo?
    ensures |Split(command, " ")| == 1 || |Split(command, " ")| == 3
    ensures |Split(command, " ")| == 1 ==> ToCommand(command).cmd == CursorTo(-1, -1)
  {
    ParsedWord(command);
  }

  /** Commands that draw take at least as many tokens as they read. */
  lemma DrawArity(command: string)
    requires ToCommand(command).Parsed?
    ensures ToCommand(command).cmd.DrawLine? || ToCommand(command).cmd.DrawBoundary? ==> |Split(command, " ")| >= 6
    ensures ToCommand(command).cmd.DrawCircle? || ToCommand(command).cmd.FillCircle? ==> |Split(command, " ")| >= 5
    ensures ToCommand(command).cmd.ChangeColor? ==> |Split(command, " ")| >= 4
  {
    var strs := Split(command, " ");
    var n := |strs|;
    if strs[0] == "draw" {
      assert n >= 5;
      if strs[1] == "line" || strs[1] == "boundary" {
        assert n >= 6;
      } else {
        assert strs[1] == "circle" && ToCommand(command) == Circle(strs[2..5], false);
      }
    } else if strs[0] == "fill" {
      assert ToCommand(command) == Circle(strs[2..5], true);
    } else if strs[0] == "color" {
      assert n >= 4;
    } else {
      assert !ToCommand(command).cmd.DrawLine? && !ToCommand(command).cmd.DrawBoundary?;
      assert !ToCommand(command).cmd.DrawCircle? && !ToCommand(command).cmd.FillCircle?;
      assert !ToCommand(command).cmd.ChangeColor?;
    }
  }

  /** Conversely, a known command with fewer tokens than it reads gives
      `NULL`, never an exception. */
  lemma ShortCommandIsNull(command: string)
    ensures var strs := Split(command, " ");
      var n := |strs|;
      (strs[0] == "cursor" && n != 1 && n != 3) ||
      (strs[0] == "color" && n < 4) ||
      ((strs[0] == "draw" || strs[0] == "fill") && n < 2) ||
      (strs[0] == "draw" && n >= 2 && (strs[1] == "line" || strs[1] == "boundary") && n < 6) ||
      ((strs[0] == "draw" || strs[0] == "fill") && n >= 2 && strs[1] == "circle" && n < 5) ||
      (strs[0] == "save" && n < 2)
      ==> ToCommand(command) == Null
  {
  }

  /** `color` with a token that is not a number gives no command, but a
      number outside `int` escapes as `out_of_range`. */
  lemma ColorErrors(command: string)
    requires Split(command, " ")[0] == "color" && |Split(command, " ")| >= 4
    ensures Ints(Split(command, " ")[1..4]) == Err(InvalidArgument) ==> ToCommand(command) == Null
    ensures Ints(Split(command, " ")[1..4]) == Err(OutOfRange) ==> ToCommand(command) == Thrown(OutOfRange)
  {
  }

  /** Integers written out in decimal, one token each. */
  function Decimals(ns: seq<int>): (r: seq<string>)
    ensures |r| == |ns|
    ensures forall k :: 0 <= k < |ns| ==> r[k] == Decimal(ns[k])
  {
    seq(|ns|, k requires 0 <= k < |ns| => Decimal(ns[k]))
  }

  lemma {:induction false} DecimalNoSpace(n: int)
    ensures ' ' !in Decimal(n)
  {
    var m := if n < 0 then -n else n;
    var ds := Digits(m);
    assert forall k :: 0 <= k < |ds| ==> ds[k] != ' ';
    if n < 0 {
      assert Decimal(n) == "-" + ds;
      assert forall k :: 0 <= k < |Decimal(n)| ==> Decimal(n)[k] != ' ';
    }
  }

  /** `stoi` reads back every integer of `int` range written in decimal. */
  lemma {:induction false} IntsDecimals(ns: seq<int>)
    requires forall k :: 0 <= k < |ns| ==> IntMin <= ns[k] <= IntMax
    ensures Ints(Decimals(ns)) == Ok(ns)
  {
    if ns != [] {
      StoiDecimal(ns[0]);
      IntsDecimals(ns[1..]);
      assert Decimals(ns)[1..] == Decimals(ns[1..]);
      assert [ns[0]] + ns[1..] == ns;
    }
  }

  /** A line whose tokens start "draw line" reads its points from the next four tokens. */
  lemma DrawLineTokens(command: string)
    requires |Split(command, " ")| >= 6
    requires Split(command, " ")[0] == "draw" && Split(command, " ")[1] == "line"
    ensures ToCommand(command) == Segment2(Split(command, " ")[2..6], false)
  {
  }

  /** Tokens without a space survive being joined by spaces and split again. */
  lemma TokensSplit(parts: seq<string>)
    requires |parts| >= 1 && forall k :: 0 <= k < |parts| ==> ' ' !in parts[k]
    ensures Split(Join(parts, " "), " ") == parts
  {
    assert " " == [' '];
    JoinSplit(parts, ' ');
  }

  lemma DrawLineSplits(ns: seq<int>)
    ensures Split(Join(["draw", "line"] + Decimals(ns), " "), " ") == ["draw", "line"] + Decimals(ns)
  {
    var parts := ["draw", "line"] + Decimals(ns);
    forall k | 0 <= k < |parts| ensures ' ' !in parts[k] {
      if k >= 2 {
        assert parts[k] == Decimal(ns[k - 2]);
        DecimalNoSpace(ns[k - 2]);
      }
    }
    TokensSplit(parts);
  }

  /** A typed `draw line` with four decimal coordinates gives exactly that line. */
  lemma DrawLineTyped(a: nat, b: nat, c: nat, d: nat)
    requires a <= IntMax && b <= IntMax && c <= IntMax && d <= IntMax
    ensures ToCommand(Join(["draw", "line"] + Decimals([a, b, c, d]), " ")) == Parsed(DrawLine(Point(a, b), Point(c, d)))
  {
    var ns: seq<int> := [a, b, c, d];
    var command := Join(["draw", "line"] + Decimals(ns), " ");
    var strs := Split(command, " ");
    DrawLineSplits(ns);
    assert strs[0] == "draw" && strs[1] == "line" && |strs| == 6;
    DrawLineTokens(command);
    assert strs[2..6] == Decimals(ns);
    SegmentOfDecimals(a, b, c, d);
  }

  lemma SegmentOfDecimals(a: nat, b: nat, c: nat, d: nat)
    requires a <= IntMax && b <= IntMax && c <= IntMax && d <= IntMax
    ensures Segment2(Decimals([a, b, c, d]), false) == Parsed(DrawLine(Point(a, b), Point(c, d)))
  {
    var ns: seq<int> := [a, b, c, d];
    IntsDecimals(ns);
    SmallUint(a); SmallUint(b); SmallUint(c); SmallUint(d);
  }

  lemma SmallUint(n: nat)
    requires n <= IntMax
    ensures ToUint(n) == n
  {
  }

  /** `print` hands on the text after "print "; a bare `print` makes
      `substr(6)` throw. */
  lemma PrintText(t: string)
    ensures ToCommand("print " + t) == Parsed(Output(t))
    ensures ToCommand("print") == Thrown(OutOfRange)
  {
    var s := "print " + t;
    FirstToken(s, "print");
    assert s[6..] == t;
    assert FindFrom("print", " ", 5) == None;
    assert FindFrom("print", " ", 0) == None by {
      forall i | 0 <= i <= 5 ensures !MatchAt("print", " ", i) {
      }
      NoSpace("print", 0);
    }
  }

  lemma {:induction false} NoSpace(s: string, from: nat)
    requires from <= |s| && forall i :: from <= i <= |s| ==> !MatchAt(s, " ", i)
    ensures FindFrom(s, " ", from) == None
    decreases |s| - from
  {
    if from < |s| {
      NoSpace(s, from + 1);
    }
  }

  /** The first token of a line that starts with the word `w` and a space. */
  lemma FirstToken(s: string, w: string)
    requires ' ' !in w && |w| < |s| && s[..|w|] == w && s[|w|] == ' '
    ensures Split(s, " ")[0] == w
  {
    forall i | 0 <= i < |w| ensures !MatchAt(s, " ", i) {
      assert s[i] == w[i];
    }
    assert MatchAt(s, " ", |w|) by {
      assert s[|w|..|w| + 1] == [' '];
    }
    FindFromSkips(s, " ", 0, |w|);
  }

  /** A negative coordinate in `int`'s range wraps around to a huge
      unsigned one, a non-negative one is kept; a colour component is
      kept in 0..255 and wraps by 256 outside it. */
  lemma NegativeWraps(n: int)
    ensures n < 0 && n + Two32 >= 0 ==> ToUint(n) == n + Two32
    ensures 0 <= n < Two32 ==> ToUint(n) == n
    ensures 0 <= n < 256 ==> ToByte(n) == n
    ensures ToByte(n + 256) == ToByte(n) && ToByte(n - 256) == ToByte(n)
  {
  }

  // ---- print and its variables ----

  /** What `get_var` can see of the program: the cursor position, the
      colour of the cell under the cursor and the canvas size. */
  datatype Env = Env(cursorX: int, cursorY: int, under: Color, width: nat, height: nat)

  const VersionNo := "v0.0.0"
  const Credits := "Created by Ari Feiglin"

  /** The names `get_var` knows. */
  predicate IsVariable(name: string) {
    name in {"cursor", "color", "dimensions", "version", "credits"}
  }

  /** `OutputCommand::get_var`: a known name has a non-empty value, any
      other name the empty string. */
  function GetVar(name: string, env: Env): (r: string)
    ensures r == "" <==> !IsVariable(name)
    ensures name == "version" ==> r == VersionNo
    ensures name == "credits" ==> r == Credits
  {
    if name == "cursor" then "(" + Decimal(env.cursorX) + ", " + Decimal(env.cursorY) + ")"
    else if name == "color" then "rgb(" + Decimal(env.under.r) + ", " + Decimal(env.under.g) + ", " + Decimal(env.under.b) + ")"
    else if name == "dimensions" then Decimal(env.width) + "x" + Decimal(env.height)
    else if name == "version" then VersionNo
    else if name == "credits" then Credits
    else ""
  }

  /** A variable name ends at a space, a `$` or the end of the text. */
  function NameEnd(s: string, i: nat): (r: nat)
    requires i <= |s|
    ensures i <= r <= |s|
    ensures forall k :: i <= k < r ==> s[k] != ' ' && s[k] != '$'
    ensures r < |s| ==> s[r] == ' ' || s[r] == '$'
    decreases |s| - i
  {
    if i < |s| && s[i] != ' ' && s[i] != '$' then NameEnd(s, i + 1) else i
  }

  /** The expansion of `s` from position i: every `$name` replaced by its
      value, the ending space kept. */
  function ExpandFrom(s: string, env: Env, i: nat): string
    requires i <= |s|
    decreases |s| - i
  {
    if i == |s| then ""
    else if s[i] != '$' then [s[i]] + ExpandFrom(s, env, i + 1)
    else
      var j := NameEnd(s, i + 1);
      GetVar(s[i + 1..j], env) + ExpandFrom(s, env, j)
  }

  /** The text `execute` prints for `s`; without a `$` it is `s` itself. */
  function Expand(s: string, env: Env): (r: string)
    ensures '$' !in s ==> r == s
  {
    if '$' !in s then
      NoVariablesUnchanged(s, env, 0);
      assert s[0..] == s;
      ExpandFrom(s, env, 0)
    else ExpandFrom(s, env, 0)
  }

  /** A character other than `$` is copied. */
  lemma ExpandPlainStep(s: string, env: Env, done: string, i: nat)
    requires i < |s| && s[i] != '$' && done + ExpandFrom(s, env, i) == Expand(s, env)
    ensures (done + [s[i]]) + ExpandFrom(s, env, i + 1) == Expand(s, env)
  {
    assert ExpandFrom(s, env, i) == [s[i]] + ExpandFrom(s, env, i + 1);
  }

  /** `$` and the name after it are replaced by the variable's value. */
  lemma ExpandVariableStep(s: string, env: Env, done: string, i: nat)
    requires i < |s| && s[i] == '$' && done + ExpandFrom(s, env, i) == Expand(s, env)
    ensures (done + GetVar(s[i + 1..NameEnd(s, i + 1)], env)) + ExpandFrom(s, env, NameEnd(s, i + 1)) == Expand(s, env)
  {
    var j := NameEnd(s, i + 1);
    assert ExpandFrom(s, env, i) == GetVar(s[i + 1..j], env) + ExpandFrom(s, env, j);
  }

  /** The inner loop of `execute`: the name that starts at i, read up to
      the next space or `$`. */
  method ReadName(output: string, i: nat) returns (varname: string, j: nat)
    requires i <= |output|
    ensures j == NameEnd(output, i) && varname == output[i..j]
  {
    j := i;
    varname := "";
    while j < |output| && output[j] != ' ' && output[j] != '$'
      invariant i <= j <= |output|
      invariant varname == output[i..j]
      invariant NameEnd(output, i) == NameEnd(output, j)
      decreases |output| - j
    {
      varname := varname + [output[j]];
      j := j + 1;
    }
  }

  /** The text `OutputCommand::execute` hands to the output window. */
  method ExpandOutput(output: string, env: Env) returns (str: string)
    ensures str == Expand(output, env)
  {
    str := "";
    var i := 0;
    while i < |output|
      invariant 0 <= i <= |output|
      invariant str + ExpandFrom(output, env, i) == Expand(output, env)
      decreases |output| - i
    {
      if output[i] != '$' {
        ExpandPlainStep(output, env, str, i);
        str := str + [output[i]];
        i := i + 1;
      } else {
        var varname, j := ReadName(output, i + 1);
        ExpandVariableStep(output, env, str, i);
        str := str + GetVar(varname, env);
        i := j;
      }
    }
  }

  /** Text without `$` is printed as it is. */
  lemma {:induction false} NoVariablesUnchanged(s: string, env: Env, i: nat)
    requires i <= |s| && '$' !in s
    ensures ExpandFrom(s, env, i) == s[i..]
    decreases |s| - i
  {
    if i < |s| {
      NoVariablesUnchanged(s, env, i + 1);
      assert s[i..] == [s[i]] + s[i + 1..];
    }
  }

  /** `$name` followed by a space, a `$` or the end becomes the variable's
      value; the rest is expanded on its own. */
  lemma VariableExpands(name: string, rest: string, env: Env)
    requires ' ' !in name && '$' !in name
    requires rest == "" || rest[0] == ' ' || rest[0] == '$'
    ensures Expand("$" + name + rest, env) == GetVar(name, env) + Expand(rest, env)
  {
    var s := "$" + name + rest;
    var j := |name| + 1;
    NameEndAt(s, 1, j);
    assert s[1..j] == name;
    ExpandSuffix(s, rest, env, j);
  }

  lemma {:induction false} NameEndAt(s: string, i: nat, j: nat)
    requires i <= j <= |s|
    requires forall k :: i <= k < j ==> s[k] != ' ' && s[k] != '$'
    requires j == |s| || s[j] == ' ' || s[j] == '$'
    ensures NameEnd(s, i) == j
    decreases j - i
  {
    if i < j {
      NameEndAt(s, i + 1, j);
    }
  }

  /** Expanding from position j of a text is expanding the text that follows j. */
  lemma {:induction false} ExpandSuffix(s: string, t: string, env: Env, j: nat)
    requires j <= |s| && s[j..] == t
    ensures ExpandFrom(s, env, j) == ExpandFrom(t, env, 0)
    decreases |s| - j
  {
    if j < |s| {
      assert t[0] == s[j];
      if s[j] != '$' {
        ExpandSuffix(s, t[1..], env, j + 1);
        ExpandShift(t, env, 1);
      } else {
        var e := NameEnd(s, j + 1);
        var e2 := NameEnd(t, 1);
        NameEndShift(s, t, j, j + 1);
        assert e == e2 + j;
        assert s[j + 1..e] == t[1..e2] by {
          assert forall k :: 1 <= k < e2 ==> t[k] == s[j + k];
        }
        ExpandSuffix(s, t[e2..], env, e);
        ExpandShift(t, env, e2);
      }
    }
  }

  /** Expanding `t` from position k is expanding `t[k..]` from its start. */
  lemma {:induction false} ExpandShift(t: string, env: Env, k: nat)
    requires k <= |t|
    ensures ExpandFrom(t, env, k) == ExpandFrom(t[k..], env, 0)
    decreases |t| - k, 1
  {
    if k < |t| {
      if t[k] != '$' {
        ExpandShiftPlain(t, env, k);
      } else {
        ExpandShiftVariable(t, env, k);
      }
    }
  }

  lemma {:induction false} ExpandShiftPlain(t: string, env: Env, k: nat)
    requires k < |t| && t[k] != '$'
    ensures ExpandFrom(t, env, k) == ExpandFrom(t[k..], env, 0)
    decreases |t| - k, 0
  {
    var u := t[k..];
    assert ExpandFrom(t, env, k) == [t[k]] + ExpandFrom(t, env, k + 1) by {
      ExpandAt(t, env, k);
    }
    assert ExpandFrom(u, env, 0) == [t[k]] + ExpandFrom(u, env, 1) by {
      ExpandAt(u, env, 0);
    }
    assert ExpandFrom(t, env, k + 1) == ExpandFrom(u, env, 1) by {
      ExpandShift(t, env, k + 1);
      ExpandShift(u, env, 1);
      assert u[1..] == t[k + 1..];
    }
  }

  lemma {:induction false} ExpandShiftVariable(t: string, env: Env, k: nat)
    requires k < |t| && t[k] == '$'
    ensures ExpandFrom(t, env, k) == ExpandFrom(t[k..], env, 0)
    decreases |t| - k, 0
  {
    var u := t[k..];
    var e := NameEnd(t, k + 1);
    NameShift(t, k);
    ExpandShift(t, env, e);
    ExpandShift(u, env, e - k);
    ExpandAt(t, env, k);
    ExpandAt(u, env, 0);
  }

  /** The name after the `$` at k, and the text after it, read from `t[k..]`. */
  lemma NameShift(t: string, k: nat)
    requires k < |t|
    ensures var u, e := t[k..], NameEnd(t, k + 1);
      NameEnd(u, 1) == e - k && u[1..e - k] == t[k + 1..e] && u[e - k..] == t[e..]
  {
    var u, e := t[k..], NameEnd(t, k + 1);
    NameEndShift(t, u, k, k + 1);
    assert u[1..e - k] == t[k + 1..e];
    assert u[e - k..] == t[e..];
  }

  /** One step of the expansion at position i. */
  lemma ExpandAt(s: string, env: Env, i: nat)
    requires i < |s|
    ensures s[i] != '$' ==> ExpandFrom(s, env, i) == [s[i]] + ExpandFrom(s, env, i + 1)
    ensures s[i] == '$' ==>
      ExpandFrom(s, env, i) == GetVar(s[i + 1..NameEnd(s, i + 1)], env) + ExpandFrom(s, env, NameEnd(s, i + 1))
  {
  }

  lemma {:induction false} NameEndShift(s: string, t: string, j: nat, i: nat)
    requires j < i <= |s| && s[j..] == t
    ensures NameEnd(s, i) == NameEnd(t, i - j) + j
    decreases |s| - i
  {
    assert |t| == |s| - j;
    if i < |s| {
      assert t[i - j] == s[i];
      if s[i] != ' ' && s[i] != '$' {
        NameEndShift(s, t, j, i + 1);
      }
    }
  }

  /** An unknown variable expands to nothing: `$name` is dropped and the
      rest, its leading space included, is expanded on its own. */
  lemma UnknownVariableVanishes(name: string, rest: string, env: Env)
    requires ' ' !in name && '$' !in name && !IsVariable(name)
    requires rest == "" || rest[0] == ' ' || rest[0] == '$'
    ensures Expand("$" + name + rest, env) == Expand(rest, env)
  {
    VariableExpands(name, rest, env);
  }
}
