/** String helpers: `std::string::find`, `split_string`,
    `split_string_to_lines`, decimal formatting and `std::stoi`. */
module Text {

  datatype Option<T> = None | Some(value: T)

  /** `d` occurs in `s` at position i. */
  predicate MatchAt(s: string, d: string, i: nat) {
    i + |d| <= |s| && s[i..i + |d|] == d
  }

  /** `s.find(d, from)`: the first occurrence of `d` at or after `from`, or
      `None` for `npos`. */
  function FindFrom(s: string, d: string, from: nat): (r: Option<nat>)
    requires from <= |s|
    ensures r.Some? ==> from <= r.value && MatchAt(s, d, r.value)
    ensures r.Some? ==> forall i :: from <= i < r.value ==> !MatchAt(s, d, i)
    ensures r.None? ==> forall i :: from <= i <= |s| ==> !MatchAt(s, d, i)
    decreases |s| - from
  {
    if MatchAt(s, d, from) then Some(from)
    else if from == |s| then None
    else FindFrom(s, d, from + 1)
  }

  /** The tokens `split_string` returns for the part of `s` from `from` on. */
  function SplitFrom(s: string, d: string, from: nat): (r: seq<string>)
    requires |d| > 0 && from <= |s|
    ensures |r| >= 1
    decreases |s| - from
  {
    match FindFrom(s, d, from)
    case None => [s[from..]]
    case Some(p) => [s[from..p]] + SplitFrom(s, d, p + |d|)
  }

  function Split(s: string, d: string): (r: seq<string>)
    requires |d| > 0
    ensures |r| >= 1
  {
    SplitFrom(s, d, 0)
  }

  /** The tokens joined back together, `d` between each two. */
  function Join(parts: seq<string>, d: string): string
    requires |parts| >= 1
  {
    if |parts| == 1 then parts[0] else parts[0] + d + Join(parts[1..], d)
  }

  /** `split_string`: cut `s` at every occurrence of `delimiter`, scanning
      left to right. The delimiter must not be empty: `find` of the empty
      string returns its start position and the loop would not end. */
  method SplitString(s: string, delimiter: string) returns (res: seq<string>)
    requires |delimiter| > 0
    ensures res == Split(s, delimiter)
  {
    var posStart := 0;
    res := [];
    var found := FindFrom(s, delimiter, posStart);
    while found.Some?
      invariant posStart <= |s|
      invariant found == FindFrom(s, delimiter, posStart)
      invariant res + SplitFrom(s, delimiter, posStart) == Split(s, delimiter)
      decreases |s| - posStart
    {
      var posEnd := found.value;
      var token := s[posStart..posEnd];
      SplitFromStep(s, delimiter, res, posStart, posEnd);
      posStart := posEnd + |delimiter|;
      res := res + [token];
      found := FindFrom(s, delimiter, posStart);
    }
    SplitFromLast(s, delimiter, res, posStart);
    res := res + [s[posStart..]];
  }

  /** A delimiter found at p cuts off the token before it. */
  lemma SplitFromStep(s: string, d: string, res: seq<string>, from: nat, p: nat)
    requires |d| > 0 && from <= |s| && FindFrom(s, d, from) == Some(p)
    requires res + SplitFrom(s, d, from) == Split(s, d)
    ensures from <= p && p + |d| <= |s|
    ensures (res + [s[from..p]]) + SplitFrom(s, d, p + |d|) == Split(s, d)
  {
    assert SplitFrom(s, d, from) == [s[from..p]] + SplitFrom(s, d, p + |d|);
  }

  /** Without a further delimiter the rest is the last token. */
  lemma SplitFromLast(s: string, d: string, res: seq<string>, from: nat)
    requires |d| > 0 && from <= |s| && FindFrom(s, d, from) == None
    requires res + SplitFrom(s, d, from) == Split(s, d)
    ensures res + [s[from..]] == Split(s, d)
  {
  }

  /** Joining the tokens with the delimiter gives back the string. */
  lemma {:induction false} SplitJoin(s: string, d: string, from: nat)
    requires |d| > 0 && from <= |s|
    ensures Join(SplitFrom(s, d, from), d) == s[from..]
    decreases |s| - from
  {
    match FindFrom(s, d, from)
    case None =>
    case Some(p) =>
      SplitJoin(s, d, p + |d|);
      var rest := SplitFrom(s, d, p + |d|);
      assert SplitFrom(s, d, from)[1..] == rest;
      assert s[from..p] + d + s[p + |d|..] == s[from..];
  }

  /** No token contains the delimiter. */
  lemma {:induction false} SplitTokensFree(s: string, d: string, from: nat)
    requires |d| > 0 && from <= |s|
    ensures forall t, i: nat :: t in SplitFrom(s, d, from) && i <= |t| ==> !MatchAt(t, d, i)
    decreases |s| - from
  {
    match FindFrom(s, d, from)
    case None =>
      assert s[from..] == s[from..|s|];
      forall i: nat | i <= |s[from..]| ensures !MatchAt(s[from..], d, i) {
        MatchSlice(s, from, |s|, d, i);
      }
    case Some(p) =>
      SplitTokensFree(s, d, p + |d|);
      forall i: nat | i <= |s[from..p]| ensures !MatchAt(s[from..p], d, i) {
        MatchSlice(s, from, p, d, i);
      }
  }

  /** An occurrence in a slice is an occurrence in the whole string. */
  lemma MatchSlice(s: string, lo: nat, hi: nat, d: string, i: nat)
    requires lo <= hi <= |s|
    ensures MatchAt(s[lo..hi], d, i) ==> MatchAt(s, d, lo + i)
  {
    if i + |d| <= hi - lo {
      var u := s[lo..hi];
      var a, b := u[i..i + |d|], s[lo + i..lo + i + |d|];
      forall k | 0 <= k < |d| ensures a[k] == b[k] {
        assert a[k] == u[i + k];
      }
      assert a == b;
    }
  }

  /** Conversely, splitting tokens that do not contain the (one-character)
      delimiter after joining them gives the tokens back. */
  lemma JoinSplit(parts: seq<string>, c: char)
    requires |parts| >= 1
    requires forall t :: t in parts ==> c !in t
    ensures Split(Join(parts, [c]), [c]) == parts
  {
    var s := Join(parts, [c]);
    assert s[0..] == s;
    JoinSplitAt(s, parts, c, 0);
  }

  /** The tokens joined from `from` on in a fixed string are split back off. */
  lemma {:induction false} JoinSplitAt(s: string, parts: seq<string>, c: char, from: nat)
    requires |parts| >= 1 && from <= |s| && s[from..] == Join(parts, [c])
    requires forall t :: t in parts ==> c !in t
    ensures SplitFrom(s, [c], from) == parts
    decreases |parts|
  {
    if |parts| == 1 {
      JoinSplitLast(s, parts, c, from);
    } else {
      var next := JoinSplitHead(s, parts, c, from);
      JoinSplitAt(s, parts[1..], c, next);
      assert parts == [parts[0]] + parts[1..];
    }
  }

  /** A single token is split off whole. */
  lemma JoinSplitLast(s: string, parts: seq<string>, c: char, from: nat)
    requires |parts| == 1 && from <= |s| && s[from..] == Join(parts, [c])
    requires forall t :: t in parts ==> c !in t
    ensures SplitFrom(s, [c], from) == parts
  {
    var t := parts[0];
    assert c !in t by {
      assert t in parts;
    }
    SplitLastToken(s, c, from, t);
  }

  /** The first of several joined tokens is split off, and the rest are
      joined from `next` on. */
  lemma JoinSplitHead(s: string, parts: seq<string>, c: char, from: nat) returns (next: nat)
    requires |parts| >= 2 && from <= |s| && s[from..] == Join(parts, [c])
    requires forall t :: t in parts ==> c !in t
    ensures next <= |s| && s[next..] == Join(parts[1..], [c])
    ensures forall t :: t in parts[1..] ==> c !in t
    ensures SplitFrom(s, [c], from) == [parts[0]] + SplitFrom(s, [c], next)
  {
    var t := parts[0];
    assert c !in t by {
      assert t in parts;
    }
    next := from + |t| + 1;
    assert Join(parts, [c]) == t + [c] + Join(parts[1..], [c]);
    FirstJoined(s, from, t, c, Join(parts[1..], [c]));
    SplitFirstToken(s, c, from, t);
    TailFree(parts, c);
  }

  /** The pieces of a stretch that is a token, the delimiter and the rest. */
  lemma FirstJoined(s: string, from: nat, t: string, c: char, j: string)
    requires from <= |s| && s[from..] == t + [c] + j
    ensures from + |t| < |s| && s[from..from + |t|] == t && s[from + |t|] == c
    ensures s[from + |t| + 1..] == j
  {
    var u := s[from..];
    assert u[..|t|] == t && u[|t|] == c && u[|t| + 1..] == j;
    assert s[from..from + |t|] == u[..|t|];
    assert s[from + |t| + 1..] == u[|t| + 1..];
  }

  /** The tokens after the first are free of `c` when all of them are. */
  lemma TailFree(parts: seq<string>, c: char)
    requires |parts| >= 1 && forall t :: t in parts ==> c !in t
    ensures forall t :: t in parts[1..] ==> c !in t
  {
    forall u | u in parts[1..] ensures c !in u {
      var k :| 0 <= k < |parts| - 1 && parts[1..][k] == u;
      assert parts[k + 1] in parts;
    }
  }

  /** A last token without the delimiter is split off whole. */
  lemma SplitLastToken(s: string, c: char, from: nat, t: string)
    requires from + |t| == |s| && s[from..] == t && c !in t
    ensures SplitFrom(s, [c], from) == [t]
  {
    assert s[from..from + |t|] == t;
    NoMatchInside(s, c, from, t);
    assert !MatchAt(s, [c], |s|);
    assert FindFrom(s, [c], from) == None;
  }

  /** A token without the delimiter, followed by the delimiter, is the first
      token split off. */
  lemma SplitFirstToken(s: string, c: char, from: nat, t: string)
    requires from + |t| < |s| && s[from..from + |t|] == t && s[from + |t|] == c && c !in t
    ensures SplitFrom(s, [c], from) == [t] + SplitFrom(s, [c], from + |t| + 1)
  {
    NoMatchInside(s, c, from, t);
    assert MatchAt(s, [c], from + |t|) by {
      assert s[from + |t|..from + |t| + 1] == [c];
    }
    FindFromSkips(s, [c], from, from + |t|);
  }

  /** If `t` starts at `from` in `s` and does not contain `c`, `c` does not
      occur in that stretch. */
  lemma NoMatchInside(s: string, c: char, from: nat, t: string)
    requires from + |t| <= |s| && s[from..from + |t|] == t && c !in t
    ensures forall i :: from <= i < from + |t| ==> !MatchAt(s, [c], i)
  {
    forall i | from <= i < from + |t| ensures !MatchAt(s, [c], i) {
      assert s[i] == t[i - from];
    }
  }

  lemma {:induction false} FindFromSkips(s: string, d: string, from: nat, p: nat)
    requires from <= p <= |s| && MatchAt(s, d, p)
    requires forall i :: from <= i < p ==> !MatchAt(s, d, i)
    ensures FindFrom(s, d, from) == Some(p)
    decreases p - from
  {
    if from < p {
      FindFromSkips(s, d, from + 1, p);
    }
  }

  // ---- split_string_to_lines ----

  /** The loop state of `split_string_to_lines`: the finished lines, the
      current line and the column counter `j` as it is after the loop's
      `j++` (after a newline it is one ahead of the current line). */
  datatype Wrap = Wrap(lines: seq<string>, curr: string, j: int)

  /** One iteration of the loop on character `ch`. */
  function WrapStep(st: Wrap, ch: char, length: int): Wrap {
    if ch == '\n' then Wrap(st.lines + [st.curr], "", 1)
    else if st.j == length then
      if ch == ' ' then Wrap(st.lines + [st.curr], "", 0)
      else Wrap(st.lines + [st.curr], [ch], 1)
    else Wrap(st.lines, st.curr + [ch], st.j + 1)
  }

  /** The loop state after the characters of `s`. */
  function WrapRun(s: string, length: int): Wrap {
    if s == [] then Wrap([], "", 0)
    else WrapStep(WrapRun(s[..|s| - 1], length), s[|s| - 1], length)
  }

  /** The lines `split_string_to_lines(s, length)` returns. */
  function WrapLines(s: string, length: int): seq<string> {
    var st := WrapRun(s, length);
    if st.curr != "" then st.lines + [st.curr] else st.lines
  }

  method SplitStringToLines(s: string, length: int) returns (lines: seq<string>)
    ensures lines == WrapLines(s, length)
  {
    lines := [];
    var curr := "";
    var i, j := 0, 0;
    while i < |s|
      invariant 0 <= i <= |s|
      invariant WrapRun(s[..i], length) == Wrap(lines, curr, j)
    {
      assert s[..i + 1][..i] == s[..i];
      if s[i] == '\n' {
        lines := lines + [curr];
        j := 0;
        curr := "";
      } else {
        var skip := false;
        if j == length {
          lines := lines + [curr];
          j := 0;
          curr := "";
          if s[i] == ' ' {
            j := j - 1;
            skip := true;
          }
        }
        if !skip {
          curr := curr + [s[i]];
        }
      }
      i, j := i + 1, j + 1;
    }
    assert s[..i] == s;
    if curr != "" {
      lines := lines + [curr];
    }
  }

  /** The state the loop keeps: no line and not the current one is longer
      than `length` or holds a newline, and the counter is the current
      line's length or one more. */
  ghost predicate WrapInvariant(st: Wrap, length: int) {
    (forall k :: 0 <= k < |st.lines| ==> |st.lines[k]| <= length && '\n' !in st.lines[k]) &&
    '\n' !in st.curr && |st.curr| <= st.j <= length && st.j <= |st.curr| + 1
  }

  lemma {:induction false} WrapRunInvariant(s: string, length: int)
    requires length >= 1
    ensures WrapInvariant(WrapRun(s, length), length)
  {
    if s != [] {
      WrapRunInvariant(s[..|s| - 1], length);
    }
  }

  /** For a positive length every line fits and no line holds a newline. */
  lemma WrapLinesFit(s: string, length: int)
    requires length >= 1
    ensures forall k :: 0 <= k < |WrapLines(s, length)| ==>
      |WrapLines(s, length)[k]| <= length && '\n' !in WrapLines(s, length)[k]
  {
    WrapRunInvariant(s, length);
  }

  /** The characters of `s` the wrap keeps, in order: every character
      except a newline and a space that arrives when the current line is
      full. */
  function Kept(s: string, length: int): string {
    if s == [] then ""
    else
      var s0 := s[..|s| - 1];
      var ch := s[|s| - 1];
      Kept(s0, length) + (if ch == '\n' || (ch == ' ' && WrapRun(s0, length).j == length) then "" else [ch])
  }

  function Concat(lines: seq<string>): string {
    if lines == [] then "" else Concat(lines[..|lines| - 1]) + lines[|lines| - 1]
  }

  lemma ConcatSnoc(lines: seq<string>, l: string)
    ensures Concat(lines + [l]) == Concat(lines) + l
  {
    assert (lines + [l])[..|lines|] == lines;
  }

  /** The loop state holds, closed lines first, exactly the kept characters. */
  lemma {:induction false} WrapRunKept(s: string, length: int)
    ensures Concat(WrapRun(s, length).lines) + WrapRun(s, length).curr == Kept(s, length)
  {
    if s != [] {
      var s0 := s[..|s| - 1];
      var ch := s[|s| - 1];
      var st := WrapRun(s0, length);
      WrapRunKept(s0, length);
      ConcatSnoc(st.lines, st.curr);
      if ch == '\n' || (st.j == length && ch == ' ') {
        assert Concat(st.lines + [st.curr]) + "" == Concat(st.lines) + st.curr;
      } else if st.j == length {
        assert Concat(st.lines + [st.curr]) + [ch] == (Concat(st.lines) + st.curr) + [ch];
      } else {
        assert Concat(st.lines) + (st.curr + [ch]) == (Concat(st.lines) + st.curr) + [ch];
      }
    }
  }

  /** Joined together, the lines are `s` without its newlines and without
      the spaces that fall at a wrap point: every other character, spaces
      included, is kept in order. */
  lemma WrapLinesKept(s: string, length: int)
    ensures Concat(WrapLines(s, length)) == Kept(s, length)
  {
    WrapRunKept(s, length);
    var st := WrapRun(s, length);
    ConcatSnoc(st.lines, st.curr);
    if st.curr == "" {
      assert Concat(st.lines) + st.curr == Concat(st.lines);
    }
  }

  /** A character is dropped only if it is a newline or a space. */
  lemma {:induction false} KeptDropsOnlyBlanks(s: string, length: int, ch: char)
    requires ch != '\n' && ch != ' '
    ensures multiset(Kept(s, length))[ch] == multiset(s)[ch]
  {
    if s != [] {
      var s0 := s[..|s| - 1];
      assert s == s0 + [s[|s| - 1]];
      KeptDropsOnlyBlanks(s0, length, ch);
    }
  }

  /** Without a wrap point (every line fits) only the newlines are dropped. */
  lemma {:induction false} KeptWithoutWrap(s: string, length: int)
    requires '\n' !in s && |s| < length
    ensures Kept(s, length) == s
  {
    if s != [] {
      var s0 := s[..|s| - 1];
      var ch := s[|s| - 1];
      assert s == s0 + [ch];
      assert '\n' !in s0 && ch != '\n' by {
        assert forall k :: 0 <= k < |s0| ==> s0[k] == s[k];
      }
      KeptWithoutWrap(s0, length);
      WrapRunNoNewline(s0, length);
    }
  }

  /** With no newline and no wrap yet, the counter is the text's length. */
  lemma {:induction false} WrapRunNoNewline(s: string, length: int)
    requires '\n' !in s && |s| < length
    ensures WrapRun(s, length) == Wrap([], s, |s|)
  {
    if s != [] {
      var s0 := s[..|s| - 1];
      var ch := s[|s| - 1];
      assert s == s0 + [ch];
      assert '\n' !in s0 && ch != '\n' by {
        assert forall k :: 0 <= k < |s0| ==> s0[k] == s[k];
      }
      WrapRunNoNewline(s0, length);
      WrapRunSnoc(s0, ch, length);
      assert WrapStep(Wrap([], s0, |s0|), ch, length) == Wrap([], s0 + [ch], |s0| + 1);
    }
  }

  /** After a newline the counter starts one ahead of the new line: the
      characters up to `length - 1` of them that follow the newline make
      up the current line, and the counter is their number plus one. */
  lemma {:induction false} WrapAfterNewline(s: string, q: string, length: int)
    requires '\n' !in q && |q| < length
    ensures WrapRun(s + ['\n'] + q, length) ==
      Wrap(WrapRun(s, length).lines + [WrapRun(s, length).curr], q, |q| + 1)
  {
    if q == [] {
      assert s + ['\n'] + q == s + ['\n'];
      WrapRunSnoc(s, '\n', length);
    } else {
      var q0 := q[..|q| - 1];
      assert s + ['\n'] + q == (s + ['\n'] + q0) + [q[|q| - 1]];
      assert q == q0 + [q[|q| - 1]];
      WrapAfterNewline(s, q0, length);
      WrapRunSnoc(s + ['\n'] + q0, q[|q| - 1], length);
    }
  }

  /** So a line that follows a newline is closed after `length - 1`
      characters, one early: with length 3, "a\nbcd" gives "a", "bc", "d". */
  lemma WrapAfterNewlineEarly(s: string, q: string, ch: char, length: int)
    requires '\n' !in q && |q| == length - 1 && ch != '\n'
    ensures WrapRun(s + ['\n'] + q + [ch], length).lines ==
      WrapRun(s, length).lines + [WrapRun(s, length).curr, q]
  {
    WrapAfterNewline(s, q, length);
    WrapRunSnoc(s + ['\n'] + q, ch, length);
  }

  /** The run on one more character is one more step. */
  lemma WrapRunSnoc(s: string, ch: char, length: int)
    ensures WrapRun(s + [ch], length) == WrapStep(WrapRun(s, length), ch, length)
  {
    assert (s + [ch])[..|s|] == s;
  }

  // ---- decimal text and std::stoi ----

  function DigitChar(d: nat): char
    requires d < 10
  {
    "0123456789"[d]
  }

  predicate IsDigit(ch: char) { '0' <= ch <= '9' }

  function DigitValue(ch: char): nat
    requires IsDigit(ch)
  {
    (ch as int - '0' as int) as nat
  }

  /** The decimal digits of n, most significant first. */
  function Digits(n: nat): (r: string)
    ensures |r| >= 1 && forall k :: 0 <= k < |r| ==> IsDigit(r[k])
  {
    if n < 10 then [DigitChar(n)] else Digits(n / 10) + [DigitChar(n % 10)]
  }

  /** The number a string of decimal digits denotes. */
  function Value(ds: string): nat
    requires forall k :: 0 <= k < |ds| ==> IsDigit(ds[k])
  {
    if ds == [] then 0 else Value(ds[..|ds| - 1]) * 10 + DigitValue(ds[|ds| - 1])
  }

  /** `std::format("{}", n)` for an integer. */
  function Decimal(n: int): string {
    if n < 0 then "-" + Digits(-n) else Digits(n)
  }

  lemma {:induction false} ValueDigits(n: nat)
    ensures Value(Digits(n)) == n
  {
    if n >= 10 {
      var ds := Digits(n);
      assert ds[..|ds| - 1] == Digits(n / 10) && ds[|ds| - 1] == DigitChar(n % 10);
      ValueDigits(n / 10);
      DigitRoundTrip(n % 10);
      assert Value(ds) == (n / 10) * 10 + n % 10;
    } else {
      DigitRoundTrip(n);
    }
  }

  /** A digit character reads back as its digit. */
  lemma DigitRoundTrip(d: nat)
    requires d < 10
    ensures IsDigit(DigitChar(d)) && DigitValue(DigitChar(d)) == d
  {
  }

  datatype StoiError = InvalidArgument | OutOfRange

  datatype Parsed<T> = Ok(value: T) | Err(error: StoiError)

  /** The characters `std::isspace` accepts. */
  predicate IsSpaceChar(ch: char) { ch == ' ' || ('\t' <= ch <= '\r') }

  function SkipSpaces(s: string, i: nat): (r: nat)
    requires i <= |s|
    ensures i <= r <= |s|
    decreases |s| - i
  {
    if i < |s| && IsSpaceChar(s[i]) then SkipSpaces(s, i + 1) else i
  }

  /** The end of the run of digits that starts at i. */
  function DigitsEnd(s: string, i: nat): (r: nat)
    requires i <= |s|
    ensures i <= r <= |s| && forall k :: i <= k < r ==> IsDigit(s[k])
    ensures r < |s| ==> !IsDigit(s[r])
    decreases |s| - i
  {
    if i < |s| && IsDigit(s[i]) then DigitsEnd(s, i + 1) else i
  }

  const IntMin: int := -0x8000_0000
  const IntMax: int := 0x7FFF_FFFF

  /** Where the digits of a number may start: after the leading white
      space and an optional sign. */
  function SignEnd(t: string): (r: nat)
    ensures SkipSpaces(t, 0) <= r <= |t|
  {
    var i := SkipSpaces(t, 0);
    if i < |t| && (t[i] == '-' || t[i] == '+') then i + 1 else i
  }

  /** `std::stoi(t)`: leading white space, an optional sign, then the
      longest run of digits; trailing characters are ignored. No digits
      throws `invalid_argument`, a value outside `int` throws `out_of_range`. */
  function Stoi(t: string): (r: Parsed<int>)
    ensures r.Ok? ==> IntMin <= r.value <= IntMax
  {
    var i := SkipSpaces(t, 0);
    var start := SignEnd(t);
    StoiOf(i < |t| && t[i] == '-', t[start..DigitsEnd(t, start)])
  }

  /** What `std::stoi` makes of the sign and the run of digits it found. */
  function StoiOf(neg: bool, ds: string): (r: Parsed<int>)
    requires forall k :: 0 <= k < |ds| ==> IsDigit(ds[k])
    ensures r.Ok? ==> IntMin <= r.value <= IntMax
    ensures r == Err(InvalidArgument) <==> ds == []
  {
    if ds == [] then Err(InvalidArgument)
    else
      var vi: int := Value(ds);
      var n := if neg then -vi else vi;
      if n < IntMin || n > IntMax then Err(OutOfRange) else Ok(n)
  }

  /** `stoi` reads back what decimal formatting writes. */
  lemma StoiDecimal(n: int)
    requires IntMin <= n <= IntMax
    ensures Stoi(Decimal(n)) == Ok(n)
  {
    var m := if n < 0 then -n else n;
    var ds := Digits(m);
    ValueDigits(m);
    if n < 0 {
      var t := "-" + ds;
      assert Decimal(n) == t;
      DigitsAfter(t, 1, ds);
      StoiSignedRun(t, true);
    } else {
      assert Decimal(n) == ds;
      DigitsAfter(ds, 0, ds);
      StoiSignedRun(ds, false);
    }
  }

  /** If `ds` is the tail of `t` from `start` and is all digits, so is
      that tail of `t`. */
  lemma DigitsAfter(t: string, start: nat, ds: string)
    requires start <= |t| && t[start..] == ds
    requires forall k :: 0 <= k < |ds| ==> IsDigit(ds[k])
    ensures forall k :: start <= k < |t| ==> IsDigit(t[k])
  {
    forall k | start <= k < |t| ensures IsDigit(t[k]) {
      assert t[k] == ds[k - start];
    }
  }

  /** `stoi` of a string that is all digits, after a minus sign when `neg`. */
  lemma StoiSignedRun(t: string, neg: bool)
    requires |t| > (if neg then 1 else 0)
    requires neg ==> t[0] == '-'
    requires forall k :: (if neg then 1 else 0) <= k < |t| ==> IsDigit(t[k])
    ensures var v: int := Value(t[(if neg then 1 else 0)..]);
      var n := if neg then -v else v;
      Stoi(t) == if n < IntMin || n > IntMax then Err(OutOfRange) else Ok(n)
  {
    var start := if neg then 1 else 0;
    assert !IsSpaceChar(t[0]);
    assert SkipSpaces(t, 0) == 0;
    DigitsEndAll(t, start);
    assert t[start..DigitsEnd(t, start)] == t[start..];
  }

  lemma {:induction false} DigitsEndAll(t: string, i: nat)
    requires i <= |t| && forall k :: i <= k < |t| ==> IsDigit(t[k])
    ensures DigitsEnd(t, i) == |t|
    decreases |t| - i
  {
    if i < |t| {
      DigitsEndAll(t, i + 1);
    }
  }

  /** `stoi` throws `invalid_argument` exactly when no digit follows the
      leading white space and the sign. */
  lemma StoiInvalid(t: string)
    ensures Stoi(t) == Err(InvalidArgument) <==> SignEnd(t) == |t| || !IsDigit(t[SignEnd(t)])
  {
  }

  /** The characters after the run of digits do not matter. */
  lemma StoiIgnoresTail(t: string)
    ensures Stoi(t[..DigitsEnd(t, SignEnd(t))]) == Stoi(t)
  {
    var i := SkipSpaces(t, 0);
    var start := SignEnd(t);
    var n := DigitsEnd(t, start);
    var u := t[..n];
    assert SkipSpaces(u, 0) == i by {
      SkipSpacesPrefix(t, n, 0);
    }
    assert DigitsEnd(u, start) == n by {
      DigitsEndPrefix(t, n, start);
    }
    StoiSameParts(u, t);
  }

  /** Two strings with the same white space, sign and digits parse alike. */
  lemma StoiSameParts(u: string, t: string)
    requires SkipSpaces(u, 0) == SkipSpaces(t, 0) && SignEnd(t) <= |u| <= |t|
    requires u == t[..|u|] && DigitsEnd(u, SignEnd(t)) == DigitsEnd(t, SignEnd(t))
    ensures Stoi(u) == Stoi(t)
  {
    var i := SkipSpaces(t, 0);
    var start := SignEnd(t);
    var n := DigitsEnd(t, start);
    assert i < |u| ==> u[i] == t[i];
    assert SignEnd(u) == start;
    assert u[start..n] == t[start..n];
  }

  lemma {:induction false} SkipSpacesPrefix(t: string, n: nat, i: nat)
    requires i <= n <= |t| && SkipSpaces(t, i) <= n
    ensures SkipSpaces(t[..n], i) == SkipSpaces(t, i)
    decreases n - i
  {
    if i < n && IsSpaceChar(t[i]) {
      SkipSpacesPrefix(t, n, i + 1);
    }
  }

  lemma {:induction false} DigitsEndPrefix(t: string, n: nat, i: nat)
    requires i <= n <= |t| && DigitsEnd(t, i) <= n
    ensures DigitsEnd(t[..n], i) == DigitsEnd(t, i)
    decreases n - i
  {
    if i < n && IsDigit(t[i]) {
      DigitsEndPrefix(t, n, i + 1);
    }
  }

  /** A value that does not fit an `int` is out of range. */
  lemma StoiOutOfRange()
    ensures Stoi("2147483648") == Err(OutOfRange)
  {
    var big := "2147483648";
    assert big[0..] == big;
    StoiSignedRun(big, false);
    BigValue();
  }

  lemma BigValue()
    ensures Value("2147483648") == 2147483648
  {
    assert Digits(2) == "2";
    assert Digits(21) == "21";
    assert Digits(214) == "214";
    assert Digits(2147) == "2147";
    assert Digits(21474) == "21474";
    assert Digits(214748) == "214748";
    assert Digits(2147483) == "2147483";
    assert Digits(21474836) == "21474836";
    assert Digits(214748364) == "214748364";
    assert Digits(2147483648) == "2147483648";
    ValueDigits(2147483648);
  }
}
