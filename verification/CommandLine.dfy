/** parseline of mps/03/tsh.c: splitting a command line in place. */
module CommandLine {
  import opened Wrappers

  const MAXLINE := 1024
  const MAXARGS := 128
  const NUL := 0 as char

  // ------------------------------------------------------------ specification

  function SkipSpaces(s: string): (r: string)
    ensures |r| <= |s| && r == s[|s| - |r|..] && (r == "" || r[0] != ' ')
    ensures forall i | 0 <= i < |s| - |r| :: s[i] == ' '
  {
    if s == "" || s[0] != ' ' then s else SkipSpaces(s[1..])
  }

  function IndexOf(s: string, c: char): (r: Option<nat>)
    ensures r.Some? ==> r.value < |s| && s[r.value] == c && forall i | 0 <= i < r.value :: s[i] != c
    ensures r.None? ==> forall i | 0 <= i < |s| :: s[i] != c
  {
    if s == "" then None
    else if s[0] == c then Some(0)
    else match IndexOf(s[1..], c)
      case Some(k) => Some(k + 1)
      case None => None
  }

  /** Where the argument at the front starts, after an opening quote, and how long it
      is; None when it has no delimiter. */
  function FrontArg(t: string): (r: Option<(nat, nat)>)
    ensures r.Some? ==> r.value.0 + r.value.1 < |t|
  {
    if t != "" && t[0] == '\'' then
      match IndexOf(t[1..], '\'')
      case Some(k) => Some((1, k))
      case None => None
    else
      match IndexOf(t, ' ')
      case Some(k) => Some((0, k))
      case None => None
  }

  /** The same for the first argument after spaces. */
  function NextArg(s: string): (r: Option<(nat, nat)>)
    ensures r.Some? ==> r.value.0 + r.value.1 < |s|
  {
    match FrontArg(SkipSpaces(s))
    case Some((i, n)) => Some((|s| - |SkipSpaces(s)| + i, n))
    case None => None
  }

  function Tokens(s: string): seq<string> {
    match NextArg(s)
    case Some((i, n)) => [s[i..i + n]] + Tokens(s[i + n + 1..])
    case None => []
  }

  /** The arguments and whether the job runs in the background; None when there are
      too many arguments for argv. */
  function Parsed(cmdline: string): Option<(seq<string>, bool)>
    requires cmdline != ""
  {
    var args := Tokens(cmdline[..|cmdline| - 1] + " ");
    if |args| >= MAXARGS then None
    else if |args| == 0 then Some((args, true))
    else
      var last := args[|args| - 1];
      if last != "" && last[0] == '&' then Some((args[..|args| - 1], true)) else Some((args, false))
  }

  // -------------------------------------------------------------- round trip

  predicate NeedsQuotes(arg: string) {
    arg == "" || ' ' in arg
  }

  function Quote(arg: string): string {
    if NeedsQuotes(arg) then "'" + arg + "'" else arg
  }

  /** The arguments quoted where needed, a space after each. */
  function Joined(args: seq<string>): string {
    if args == [] then "" else Quote(args[0]) + " " + Joined(args[1..])
  }

  /** The quoted form can be read back. */
  predicate Quotable(arg: string) {
    if NeedsQuotes(arg) then '\'' !in arg else arg[0] != '\''
  }

  lemma SkipNone(s: string)
    requires s == "" || s[0] != ' '
    ensures SkipSpaces(s) == s
  {
  }

  lemma IndexIs(s: string, c: char, k: nat)
    requires k < |s| && s[k] == c && forall i | 0 <= i < k :: s[i] != c
    ensures IndexOf(s, c) == Some(k)
  {
    assert c in s;
  }

  lemma FrontOfQuoted(arg: string, rest: string)
    requires Quotable(arg) && NeedsQuotes(arg)
    ensures FrontArg(Quote(arg) + " " + rest) == Some((1, |arg|))
  {
    var s := Quote(arg) + " " + rest;
    assert s[1..][|arg|] == '\'';
    IndexIs(s[1..], '\'', |arg|);
  }

  lemma FrontOfPlain(arg: string, rest: string)
    requires Quotable(arg) && !NeedsQuotes(arg)
    ensures FrontArg(Quote(arg) + " " + rest) == Some((0, |arg|))
  {
    IndexIs(Quote(arg) + " " + rest, ' ', |arg|);
  }

  lemma NextIsFront(s: string)
    requires s == "" || s[0] != ' '
    ensures NextArg(s) == FrontArg(s)
  {
    hide FrontArg;
    SkipNone(s);
  }

  /** A printed argument is read back, and reading goes on after its space. */
  lemma TokensOfQuote(arg: string, rest: string)
    requires Quotable(arg)
    ensures Tokens(Quote(arg) + " " + rest) == [arg] + Tokens(rest)
  {
    hide NextArg, FrontArg, Quotable;
    var s := Quote(arg) + " " + rest;
    QuoteStart(arg);
    NextIsFront(s);
    if NeedsQuotes(arg) {
      FrontOfQuoted(arg, rest);
      assert s[1..1 + |arg|] == arg;
      assert s[1 + |arg| + 1..] == " " + rest;
      TokensOfSpace(rest);
    } else {
      FrontOfPlain(arg, rest);
      assert s[0..0 + |arg|] == arg && s[0 + |arg| + 1..] == rest;
    }
  }

  lemma QuoteStart(arg: string)
    ensures Quote(arg) != "" && Quote(arg)[0] != ' '
  {
  }

  lemma NextArgAfterSpace(s: string)
    ensures NextArg(" " + s) == match NextArg(s) case Some((i, n)) => Some((i + 1, n)) case None => None
  {
    hide FrontArg;
    assert (" " + s)[1..] == s;
    assert SkipSpaces(" " + s) == SkipSpaces(s);
  }

  lemma TokensOfSpace(s: string)
    ensures Tokens(" " + s) == Tokens(s)
  {
    hide NextArg;
    NextArgAfterSpace(s);
    match NextArg(s)
    case Some((i, n)) =>
      assert (" " + s)[i + 1..i + 1 + n] == s[i..i + n];
      assert (" " + s)[i + 1 + n + 1..] == s[i + n + 1..];
    case None =>
  }

  lemma TokensOfEmpty()
    ensures Tokens("") == []
  {
  }

  lemma {:induction false} TokensOfJoined(args: seq<string>)
    requires forall i | 0 <= i < |args| :: Quotable(args[i])
    ensures Tokens(Joined(args)) == args
  {
    hide Tokens, Quote, Quotable;
    TokensOfEmpty();
    if args != [] {
      TokensOfJoined(args[1..]);
      TokensOfQuote(args[0], Joined(args[1..]));
      assert [args[0]] + args[1..] == args;
    }
  }

  lemma TokensOfBlank()
    ensures Tokens(" ") == []
  {
    TokensOfSpace("");
    assert " " + "" == " ";
  }

  /** An argument without its closing quote is dropped. */
  lemma TokensOfUnclosed(rest: string)
    requires '\'' !in rest
    ensures Tokens("'" + rest) == []
  {
    hide IndexOf;
    var s := "'" + rest;
    NextIsFront(s);
    assert s[1..] == rest;
    assert IndexOf(rest, '\'').None?;
  }

  /** Splitting undoes joining, up to the 128 places of argv. */
  lemma ParseUndoesPrint(args: seq<string>)
    requires forall i | 0 <= i < |args| :: Quotable(args[i])
    ensures var line := if args == [] then "\n" else Joined(args)[..|Joined(args)| - 1] + "\n";
            Parsed(line) ==
              if args == [] then Some(([], true))
              else if |args| >= 128 then None
              else if args[|args| - 1] != "" && args[|args| - 1][0] == '&' then Some((args[..|args| - 1], true))
              else Some((args, false))
  {
    hide Tokens, Joined;
    if args == [] {
      TokensOfBlank();
      assert "\n"[..0] + " " == " ";
    } else {
      JoinedEnds(args);
      var line := Joined(args)[..|Joined(args)| - 1] + "\n";
      assert line[..|line| - 1] + " " == Joined(args);
      TokensOfJoined(args);
    }
  }

  lemma {:induction false} JoinedEnds(args: seq<string>)
    requires args != []
    ensures Joined(args) != "" && Joined(args)[|Joined(args)| - 1] == ' '
  {
    if |args| > 1 {
      JoinedEnds(args[1..]);
    }
  }

  /** An argument survives being printed and read exactly when it is quotable. */
  lemma QuotableIff(arg: string)
    ensures Tokens(Quote(arg) + " ") == [arg] <==> Quotable(arg)
  {
    hide NextArg, FrontArg, Quotable, Quote;
    var s := Quote(arg) + " ";
    assert s == Quote(arg) + " " + "";
    if Quotable(arg) {
      TokensOfQuote(arg, "");
      TokensOfEmpty();
    } else {
      QuoteStart(arg);
      NextIsFront(s);
      FrontTooShort(arg);
      match NextArg(s)
      case Some((i, n)) =>
        assert |Tokens(s)[0]| == n;
      case None =>
    }
  }

  lemma FrontTooShort(arg: string)
    requires !Quotable(arg)
    ensures var r := FrontArg(Quote(arg) + " ");
            r.Some? ==> r.value.1 != |arg|
  {
    var s := Quote(arg) + " ";
    if NeedsQuotes(arg) {
      var k :| 0 <= k < |arg| && arg[k] == '\'';
      assert s[1..][k] == '\'';
    }
  }

  // ----------------------------------------------------------- the algorithm

  /** From `p` on, the buffer holds the rest of `line` and a terminating NUL. */
  ghost predicate Unread(buf: seq<char>, line: string, p: int) {
    && 0 <= p <= |line| < |buf| && buf[|line|] == NUL
    && forall i | p <= i < |line| :: buf[i] == line[i] && line[i] != NUL
  }

  /** A pointer to `pos` is the C string `s`. */
  ghost predicate StringAt(buf: seq<char>, pos: int, s: string) {
    0 <= pos && pos + |s| < |buf| && buf[pos..pos + |s|] == s && buf[pos + |s|] == NUL && NUL !in s
  }

  /** strchr, for a character other than NUL. */
  method StrChr(a: array<char>, p: nat, c: char, ghost line: string) returns (r: int)
    requires Unread(a[..], line, p) && c != NUL
    ensures r == match IndexOf(line[p..], c) case Some(k) => p + k case None => -1
  {
    r := p;
    while a[r] != NUL && a[r] != c
      invariant p <= r <= |line| && forall i | p <= i < r :: line[i] != c
      decreases |line| - r
    {
      r := r + 1;
    }
    assert r < |line| ==> line[p..][r - p] == c;
    if a[r] == NUL {
      assert r == |line|;
      r := -1;
    } else {
      IndexIs(line[p..], c, r - p);
    }
  }

  /** The loop that ignores spaces. */
  method SkipBlanks(a: array<char>, start: nat, ghost line: string) returns (buf: nat)
    requires Unread(a[..], line, start)
    ensures start <= buf <= |line| && SkipSpaces(line[start..]) == line[buf..]
    ensures a[buf] == '\'' <==> line[buf..] != "" && line[buf..][0] == '\''
  {
    buf := start;
    while a[buf] != NUL && a[buf] == ' '
      invariant start <= buf <= |line|
      invariant forall i | start <= i < buf :: line[i] == ' '
      decreases |line| - buf
    {
      buf := buf + 1;
    }
    SkipIs(line, start, buf);
  }

  /** Skips spaces and an opening quote, and looks for the delimiter. */
  method FindArg(a: array<char>, start: nat, ghost line: string) returns (buf: nat, delim: int)
    requires Unread(a[..], line, start)
    ensures match NextArg(line[start..])
            case Some((i, n)) => buf == start + i && delim == start + i + n
            case None => delim == -1 && buf >= start
  {
    hide IndexOf, SkipSpaces;
    buf := SkipBlanks(a, start, line);
    if a[buf] == '\'' {
      buf := buf + 1;
      assert line[buf - 1..][1..] == line[buf..];
      delim := StrChr(a, buf, '\'', line);
    } else {
      delim := StrChr(a, buf, ' ', line);
    }
  }

  lemma {:induction false} SkipIs(line: string, start: nat, p: nat)
    requires start <= p <= |line| && forall i | start <= i < p :: line[i] == ' '
    requires p == |line| || line[p] != ' '
    ensures SkipSpaces(line[start..]) == line[p..]
    decreases p - start
  {
    if start < p {
      SkipIs(line, start + 1, p);
      assert line[start..][1..] == line[start + 1..];
    }
  }

  const NULL_PTR := -1

  /** The first pointers of argv are the strings `args`, each ending before `p`. */
  ghost predicate Collected(buf: seq<char>, argv: seq<int>, args: seq<string>, p: int) {
    && |args| <= |argv|
    && forall i | 0 <= i < |args| :: StringAt(buf, argv[i], args[i]) && argv[i] + |args[i]| < p
  }

  /** strcpy of the line, its last character replaced by a space. */
  method CopyLine(cmdline: string, a: array<char>)
    requires 1 <= |cmdline| < MAXLINE == a.Length && NUL !in cmdline
    modifies a
    ensures Unread(a[..], cmdline[..|cmdline| - 1] + " ", 0)
  {
    for i := 0 to |cmdline|
      invariant forall j | 0 <= j < i :: a[j] == cmdline[j]
    {
      a[i] := cmdline[i];
    }
    a[|cmdline|] := NUL;
    a[|cmdline| - 1] := ' ';
  }

  /** parseline.  The result is None when argv, an array of MAXARGS pointers, is too
      short for the arguments and the NULL after them. */
  method ParseLine(cmdline: string, a: array<char>, argv: array<int>) returns (bg: Option<bool>)
    requires 1 <= |cmdline| < MAXLINE == a.Length && NUL !in cmdline && argv.Length == MAXARGS
    modifies a, argv
    ensures match Parsed(cmdline)
            case None => bg == None
            case Some((args, background)) =>
              bg == Some(background) && |args| < MAXARGS && argv[|args|] == NULL_PTR &&
              forall i | 0 <= i < |args| :: StringAt(a[..], argv[i], args[i])
  {
    hide NextArg, StringAt, Collected, Unread, Tokens, Progress;
    ghost var line, args := cmdline[..|cmdline| - 1] + " ", [];
    CopyLine(cmdline, a);
    var argc := 0;
    var buf, delim := FindArg(a, 0, line);
    ProgressStart(a[..], argv[..], line, buf, delim);
    while delim >= 0
      invariant argc == |args| < MAXARGS && Progress(a[..], argv[..], args, line, buf, delim)
      decreases if delim < 0 then 0 else 1 + |line| - delim
    {
      ProgressWrite(a[..], argv[..], args, line, buf, delim);
      argv[argc] := buf;
      argc := argc + 1;
      a[delim] := NUL;
      args := args + [line[buf..delim]];
      var start := delim + 1;
      buf, delim := FindArg(a, start, line);
      ProgressNext(a[..], argv[..], args, line, start, buf, delim);
      if argc == MAXARGS {
        return None;
      }
    }
    ProgressEnd(a[..], argv[..], args, line, buf, delim);
    argv[argc] := NULL_PTR;
    if argc == 0 {
      return Some(true);
    }
    LastChar(a[..], argv[argc - 1], args[argc - 1]);
    if a[argv[argc - 1]] == '&' {
      argc := argc - 1;
      argv[argc] := NULL_PTR;
      return Some(true);
    }
    return Some(false);
  }

  /** `args` are split off; the next one lies between `buf` and `delim`, if there is one. */
  ghost predicate Progress(mem: seq<char>, argv: seq<int>, args: seq<string>, line: string, buf: nat, delim: int) {
    && |mem| == MAXLINE && |argv| == MAXARGS && |args| <= MAXARGS && Collected(mem, argv, args, buf)
    && (if delim < 0 then Tokens(line) == args
        else
          && buf <= delim < |line| && Unread(mem, line, buf)
          && Tokens(line) == args + [line[buf..delim]] + Tokens(line[delim + 1..]))
  }

  lemma ProgressStart(mem: seq<char>, argv: seq<int>, line: string, buf: nat, delim: int)
    requires |mem| == MAXLINE && |argv| == MAXARGS && Unread(mem, line, 0)
    requires match NextArg(line[0..])
             case Some((i, n)) => buf == i && delim == i + n
             case None => delim == -1 && buf >= 0
    ensures Progress(mem, argv, [], line, buf, delim)
  {
    hide NextArg, Tokens;
    assert line[0..] == line;
    ProgressNext(mem, argv, [], line, 0, buf, delim);
  }

  lemma ProgressNext(mem: seq<char>, argv: seq<int>, args: seq<string>, line: string, start: nat, buf: nat, delim: int)
    requires |mem| == MAXLINE && |argv| == MAXARGS && |args| <= MAXARGS && Collected(mem, argv, args, start)
    requires Unread(mem, line, start) && Tokens(line) == args + Tokens(line[start..])
    requires match NextArg(line[start..])
             case Some((i, n)) => buf == start + i && delim == start + i + n
             case None => delim == -1 && buf >= start
    ensures Progress(mem, argv, args, line, buf, delim)
  {
    hide NextArg, Tokens, StringAt;
    TokensNext(line, start);
    match NextArg(line[start..])
    case Some((i, n)) =>
      assert args + ([line[buf..delim]] + Tokens(line[delim + 1..])) == args + [line[buf..delim]] +
             Tokens(line[delim + 1..]);
    case None =>
  }

  lemma ProgressWrite(mem: seq<char>, argv: seq<int>, args: seq<string>, line: string, buf: nat, delim: int)
    requires Progress(mem, argv, args, line, buf, delim) && 0 <= delim && |args| < MAXARGS
    ensures |mem| == MAXLINE && |argv| == MAXARGS && buf <= delim < |line| < MAXLINE
    ensures var args' := args + [line[buf..delim]];
            && Collected(mem[delim := NUL], argv[|args| := buf], args', delim + 1)
            && Unread(mem[delim := NUL], line, delim + 1)
            && Tokens(line) == args' + Tokens(line[delim + 1..])
  {
    hide Tokens, StringAt;
    CollectedMore(mem, mem[delim := NUL], argv[|args| := buf], args, line, buf, delim);
  }

  lemma ProgressEnd(mem: seq<char>, argv: seq<int>, args: seq<string>, line: string, buf: nat, delim: int)
    requires Progress(mem, argv, args, line, buf, delim) && delim < 0
    ensures Tokens(line) == args && |args| <= |argv|
    ensures forall i | 0 <= i < |args| :: StringAt(mem, argv[i], args[i])
  {
    hide Tokens, StringAt;
  }

  lemma TokensNext(line: string, p: nat)
    requires p <= |line|
    ensures match NextArg(line[p..])
            case Some((i, n)) => Tokens(line[p..]) == [line[p + i..p + i + n]] + Tokens(line[p + i + n + 1..])
            case None => Tokens(line[p..]) == []
  {
    hide NextArg;
    match NextArg(line[p..])
    case Some((i, n)) =>
      assert line[p..][i..i + n] == line[p + i..p + i + n];
      assert line[p..][i + n + 1..] == line[p + i + n + 1..];
    case None =>
  }

  /** The delimiter becomes the end of one more argument. */
  lemma CollectedMore(before: seq<char>, after: seq<char>, argv: seq<int>, args: seq<string>, line: string, buf: nat,
                      delim: nat)
    requires Collected(before, argv, args, buf) && |args| < |argv| && argv[|args|] == buf
    requires buf <= delim < |line| && Unread(before, line, buf) && after == before[delim := NUL]
    ensures Collected(after, argv, args + [line[buf..delim]], delim + 1) && Unread(after, line, delim + 1)
  {
    var s := line[buf..delim];
    forall i | 0 <= i < |args|
      ensures StringAt(after, argv[i], args[i])
    {
      assert StringAt(before, argv[i], args[i]);
      assert after[argv[i]..argv[i] + |args[i]|] == before[argv[i]..argv[i] + |args[i]|];
    }
    assert after[buf..delim] == s;
  }

  lemma LastChar(buf: seq<char>, pos: int, s: string)
    requires StringAt(buf, pos, s)
    ensures 0 <= pos < |buf| && (buf[pos] == '&' <==> s != "" && s[0] == '&')
  {
    if s != "" { assert buf[pos..pos + |s|][0] == buf[pos]; }
  }
}
