/**
 `split_line` (mpp/mpp_sys.c:117-217): the in-place command-line tokenizer. It writes token
 bytes into the buffer it is still reading and hands out slices of that buffer.
 */
module SplitLine {
  import opened CType
  import opened Options

  // ---- The tokenizer as a function of the original bytes

  function SkipSpaces(s: string): (r: string)
    ensures |r| <= |s|
  {
    if s != "" && IsSpace(s[0]) then SkipSpaces(s[1..]) else s
  }

  function Append(tok: Option<string>, c: char): Option<string> {
    Some(if tok.Some? then tok.value + [c] else [c])
  }

  /** The body of one token: the token read from s, if any byte was collected, and the input
      that follows it. `quote` is the open quote, `tok` what has been collected so far. */
  function Body(s: string, quote: Option<char>, tok: Option<string>): (r: (Option<string>, string))
    ensures |r.1| <= |s| && (s != "" ==> |r.1| < |s|)
  {
    if s == "" then (tok, "")
    else
      var (ch, t) := (s[0], s[1..]);
      if quote == None && IsSpace(ch) then
        if tok == None then Body(t, None, None) else (tok, t)
      else if (ch == '"' || ch == '\'') && quote == None then Body(t, Some(ch), tok)
      else if (ch == '"' || ch == '\'') && quote == Some(ch) then Body(t, None, tok)
      else if ch == '\\' && quote != None then
        if t == "" then (tok, "") else Body(t[1..], quote, Append(tok, t[0]))
      else Body(t, quote, Append(tok, ch))
  }

  /** The tokens of a line, at most `max` of them. */
  function Tokens(s: string, max: nat): (r: seq<string>)
    ensures |r| <= max
    decreases |s|
  {
    var t := SkipSpaces(s);
    if max == 0 || t == "" then []
    else
      var (tok, rest) := Body(t, None, None);
      if tok.Some? then [tok.value] + Tokens(rest, max - 1) else Tokens(rest, max)
  }

  // ---- The C code

  /** A token handed out as a pointer into the buffer: its bytes are there, and a NUL follows
      unless the token reaches the very end of the line. */
  ghost predicate TokenAt(b: string, start: nat, tok: string) {
    && start + |tok| <= |b|
    && b[start..start + |tok|] == tok
    && (start + |tok| < |b| ==> b[start + |tok|] == '\0')
  }

  function QuoteOf(inQuote: bool, quoteChar: char): Option<char> {
    if inQuote then Some(quoteChar) else None
  }

  function BodyAt(s: string, i: nat, quote: Option<char>, tok: Option<string>): (Option<string>, string)
    requires i <= |s|
  {
    Body(s[i..], quote, tok)
  }

  /** One iteration of the inner loop, at position i of the line. */
  lemma BodyStep(s: string, i: nat, quote: Option<char>, tok: Option<string>)
    requires i < |s|
    ensures var (ch, r) := (s[i], BodyAt(s, i, quote, tok));
            if quote == None && IsSpace(ch) then
              r == if tok == None then BodyAt(s, i + 1, None, None) else (tok, s[i + 1..])
            else if (ch == '"' || ch == '\'') && quote == None then r == BodyAt(s, i + 1, Some(ch), tok)
            else if (ch == '"' || ch == '\'') && quote == Some(ch) then r == BodyAt(s, i + 1, None, tok)
            else if ch == '\\' && quote != None then
              if i + 1 == |s| then r == (tok, "") else r == BodyAt(s, i + 2, quote, Append(tok, s[i + 1]))
            else r == BodyAt(s, i + 1, quote, Append(tok, ch))
  {
    assert s[i..][1..] == s[i + 1..];
    assert i + 1 < |s| ==> s[i + 1..][1..] == s[i + 2..];
  }

  /** What has been collected: the bytes between the token start and the write index. */
  function Collected(b: string, from: nat, dst: nat): Option<string>
    requires from <= dst <= |b|
  {
    if from == dst then None else Some(b[from..dst])
  }

  /** `buf[dst++] = ch`, at a position whose original byte has already been read. */
  method Write(buf: array<char>, ghost from: nat, dst: nat, ch: char)
    requires from <= dst < buf.Length
    modifies buf
    ensures Collected(buf[..], from, dst + 1) == Append(old(Collected(buf[..], from, dst)), ch)
    ensures forall k | 0 <= k < buf.Length && k != dst :: buf[k] == old(buf[k])
  {
    ghost var before := buf[..];
    buf[dst] := ch;
    assert buf[..][from..dst] == before[from..dst];
    assert buf[..][from..dst + 1] == before[from..dst] + [ch];
  }

  /** The inner loop: reads one token from position `from` on. The write index `dst` never
      passes the read index `idx`, so every byte is read before it can be overwritten, and
      nothing before `from` or from `end` on is touched. */
  method ReadToken(buf: array<char>, end: nat, from: nat, ghost s: string)
    returns (idx: nat, dst: nat, tokenStart: int)
    requires from < end <= buf.Length && |s| == end
    requires forall k | from <= k < end :: buf[k] == s[k]
    modifies buf
    ensures from <= dst <= idx <= end
    ensures tokenStart == (if from == dst then -1 else from)
    ensures BodyAt(s, from, None, None) == (Collected(buf[..], from, dst), if idx < end then s[idx + 1..] else "")
    ensures forall k | idx <= k < end :: buf[k] == s[k]
    ensures forall k | 0 <= k < from || end <= k < buf.Length :: buf[k] == old(buf[k])
  {
    hide BodyAt, Body, Append, Collected;
    var inQuote, quoteChar := false, '\0';
    idx, dst, tokenStart := from, from, -1;
    ghost var tok: Option<string> := None;
    CollectedEmpty(buf[..], from);
    while idx < end
      invariant from <= dst <= idx <= end
      invariant tokenStart == (if from == dst then -1 else from)
      invariant tok == Collected(buf[..], from, dst) && (tok == None <==> from == dst)
      invariant BodyAt(s, idx, QuoteOf(inQuote, quoteChar), tok) == BodyAt(s, from, None, None)
      invariant forall k | idx <= k < end :: buf[k] == s[k]
      invariant forall k | 0 <= k < from || end <= k < buf.Length :: buf[k] == old(buf[k])
    {
      var ch := buf[idx];
      BodyStep(s, idx, QuoteOf(inQuote, quoteChar), tok);
      if !inQuote && IsSpace(ch) {
        if tokenStart == -1 {
          idx := idx + 1;
          continue;
        }
        break;
      }
      if ch == '"' || ch == '\'' {
        if !inQuote {
          inQuote := true;
          quoteChar := ch;
          idx := idx + 1;
          continue;
        }
        if ch == quoteChar {
          inQuote := false;
          idx := idx + 1;
          continue;
        }
      } else if ch == '\\' && inQuote {
        idx := idx + 1;
        if idx >= end {
          break;
        }
        ch := buf[idx];
        if tokenStart == -1 {
          tokenStart := dst;
        }
        AppendSome(tok, ch);
        tok := Append(tok, ch);
        Write(buf, from, dst, ch);
        dst := dst + 1;
        idx := idx + 1;
        continue;
      }
      // A space outside quotes was dealt with above, so this byte belongs to the token.
      if tokenStart == -1 {
        tokenStart := dst;
      }
      AppendSome(tok, ch);
      tok := Append(tok, ch);
      Write(buf, from, dst, ch);
      dst := dst + 1;
      idx := idx + 1;
    }
    if idx == end {
      BodyEnd(s, QuoteOf(inQuote, quoteChar), tok);
    }
  }

  lemma BodyEnd(s: string, quote: Option<char>, tok: Option<string>)
    ensures BodyAt(s, |s|, quote, tok) == (tok, "")
  {
    assert s[|s|..] == "";
  }

  lemma CollectedEmpty(b: string, from: nat)
    requires from <= |b|
    ensures Collected(b, from, from) == None
  {
  }

  lemma AppendSome(tok: Option<string>, c: char)
    ensures Append(tok, c) != None
  {
  }

  /** What a reader of a `char *` sees: the bytes up to the first NUL or the end of the line. */
  function CString(b: string, at: nat): string
    requires at <= |b|
    decreases |b| - at
  {
    if at == |b| || b[at] == '\0' then "" else [b[at]] + CString(b, at + 1)
  }

  lemma {:induction false} TokenAsCString(b: string, start: nat, tok: string)
    requires TokenAt(b, start, tok) && '\0' !in tok
    ensures CString(b, start) == tok
    decreases |tok|
  {
    if tok != "" {
      assert b[start] == b[start..start + |tok|][0] == tok[0];
      assert b[start + 1..start + |tok|] == b[start..start + |tok|][1..];
      TokenAsCString(b, start + 1, tok[1..]);
    }
  }

  /** The tokens still to be found when the read index is i. */
  function TokensAt(s: string, i: nat, max: nat): seq<string> {
    if i < |s| then Tokens(s[i..], max) else []
  }

  lemma SkipStep(s: string, i: nat, max: nat)
    requires i < |s| && IsSpace(s[i])
    ensures TokensAt(s, i, max) == TokensAt(s, i + 1, max)
  {
    assert s[i..][1..] == s[i + 1..];
  }

  /** The input from position i on, empty past the end. */
  function From(s: string, i: nat): string {
    if i < |s| then s[i..] else ""
  }

  lemma TokenStep(s: string, from: nat, max: nat, tok: Option<string>, idx: nat)
    requires from < |s| && !IsSpace(s[from]) && max > 0
    requires BodyAt(s, from, None, None) == (tok, From(s, idx))
    ensures TokensAt(s, from, max)
         == if tok.Some? then [tok.value] + TokensAt(s, idx, max - 1) else TokensAt(s, idx, max)
  {
    assert Tokens("", max) == [] && Tokens("", max - 1) == [];
  }

  lemma AfterTerminator(s: string, idx: nat, dst: nat)
    requires dst <= idx <= |s|
    ensures (if idx < |s| then s[idx + 1..] else "") == From(s, if dst < |s| then idx + 1 else idx)
  {
  }

  /** The new token is added to the list, and its place to the table. */
  lemma TokenAdded(toks: seq<string>, tok: string, rest: seq<string>, before: seq<string>)
    requires before == [tok] + rest
    ensures (toks + [tok]) + rest == toks + before
  {
  }

  /** The pointers handed out so far: every token lies before `limit` (or the line is used up),
      and the tokens follow each other without overlap. */
  ghost predicate HandedOut(b: string, starts: seq<nat>, toks: seq<string>, limit: nat) {
    && |starts| == |toks|
    && (forall t | 0 <= t < |toks| :: TokenAt(b, starts[t], toks[t]) && starts[t] + |toks[t]| < limit)
    && (forall t | 0 <= t < |toks| - 1 :: starts[t] + |toks[t]| < starts[t + 1])
  }

  lemma HandedOutFrame(b: string, c: string, starts: seq<nat>, toks: seq<string>, limit: nat)
    requires HandedOut(b, starts, toks, limit) && |b| == |c|
    requires forall k | 0 <= k < limit && k < |b| :: b[k] == c[k]
    ensures HandedOut(c, starts, toks, limit)
  {
    forall t | 0 <= t < |toks|
      ensures TokenAt(c, starts[t], toks[t])
    {
      var (lo, hi) := (starts[t], starts[t] + |toks[t]|);
      assert TokenAt(b, lo, toks[t]) && hi < limit;
      assert c[lo..hi] == b[lo..hi];
    }
  }

  lemma HandOut(b: string, starts: seq<nat>, toks: seq<string>, from: nat, tok: string, limit: nat)
    requires HandedOut(b, starts, toks, from) && TokenAt(b, from, tok) && from + |tok| < limit
    ensures HandedOut(b, starts + [from], toks + [tok], limit)
  {
  }

  lemma HandedOutLater(b: string, starts: seq<nat>, toks: seq<string>, limit: nat, later: nat)
    requires HandedOut(b, starts, toks, limit) && limit <= later
    ensures HandedOut(b, starts, toks, later)
  {
  }

  /** Everything handed out lies before the read index, or the line is used up. */
  function Limit(idx: nat, end: nat): nat {
    if idx < end then idx else end + 1
  }

  /** `if (dst < end) buf[dst] = 0`. */
  method Terminate(buf: array<char>, end: nat, ghost from: nat, dst: nat)
    requires from <= dst <= end <= buf.Length
    modifies buf
    ensures var tok := old(Collected(buf[..], from, dst));
            (tok == None <==> from == dst)
            && (tok.Some? ==> TokenAt(buf[..end], from, tok.value) && from + |tok.value| == dst)
    ensures forall k | 0 <= k < buf.Length && k != dst :: buf[k] == old(buf[k])
    ensures dst == end ==> forall k | 0 <= k < buf.Length :: buf[k] == old(buf[k])
  {
    ghost var before := buf[..][from..dst];
    if dst < end {
      buf[dst] := '\0';
    }
    assert buf[..end][from..dst] == before;
  }

  lemma LimitHolds(dst: nat, idx: nat, end: nat)
    requires dst <= idx <= end
    ensures dst < Limit(if dst < end then idx + 1 else idx, end)
  {
  }

  /** One token, read and NUL-terminated where there is room. */
  method ReadTerminated(buf: array<char>, end: nat, from: nat, ghost s: string)
    returns (idx: nat, tokenStart: int, ghost tok: Option<string>)
    requires from < end <= buf.Length && |s| == end
    requires forall k | from <= k < end :: buf[k] == s[k]
    modifies buf
    ensures from < idx <= end + 1 && from < Limit(idx, end)
    ensures tokenStart == (if tok == None then -1 else from)
    ensures BodyAt(s, from, None, None) == (tok, From(s, idx))
    ensures tok.Some? ==> TokenAt(buf[..end], from, tok.value) && from + |tok.value| < Limit(idx, end)
    ensures forall k | idx <= k < end :: buf[k] == s[k]
    ensures forall k | 0 <= k < from || end <= k < buf.Length :: buf[k] == old(buf[k])
  {
    hide *;
    var dst;
    idx, dst, tokenStart := ReadToken(buf, end, from, s);
    tok := Collected(buf[..], from, dst);
    AfterTerminator(s, idx, dst);
    LimitHolds(dst, idx, end);
    Terminate(buf, end, from, dst);
    if dst < end {
      idx := idx + 1;
    }
  }

  /** One token: read, terminate, and hand out if any byte was collected. */
  method EmitToken(buf: array<char>, end: nat, argv: array<nat>, maxargv: nat, from: nat, argc: nat,
                   ghost s: string, ghost toks: seq<string>)
    returns (idx: nat, newArgc: nat, ghost newToks: seq<string>)
    requires from < end <= buf.Length && |s| == end && !IsSpace(s[from])
    requires argc < maxargv <= argv.Length && argc == |toks|
    requires forall k | from <= k < end :: buf[k] == s[k]
    requires HandedOut(buf[..end], argv[..argc], toks, from)
    modifies buf, argv
    ensures from < idx <= end + 1 && argc <= newArgc <= maxargv && newArgc == |newToks|
    ensures newToks + TokensAt(s, idx, maxargv - newArgc) == toks + TokensAt(s, from, maxargv - argc)
    ensures HandedOut(buf[..end], argv[..newArgc], newToks, Limit(idx, end))
    ensures forall k | idx <= k < end :: buf[k] == s[k]
    ensures forall k | end <= k < buf.Length :: buf[k] == old(buf[k])
    ensures forall k | newArgc <= k < argv.Length :: argv[k] == old(argv[k])
  {
    hide *;
    ghost var before, starts := buf[..end], argv[..argc];
    var tokenStart;
    ghost var tok;
    idx, tokenStart, tok := ReadTerminated(buf, end, from, s);
    TokenStep(s, from, maxargv - argc, tok, idx);
    HandedOutFrame(before, buf[..end], starts, toks, from);
    newArgc, newToks := argc, toks;
    if tokenStart != -1 && tokenStart < end {
      HandOut(buf[..end], starts, toks, from, tok.value, Limit(idx, end));
      TokenAdded(toks, tok.value, TokensAt(s, idx, maxargv - argc - 1), TokensAt(s, from, maxargv - argc));
      argv[argc] := tokenStart;
      newArgc, newToks := argc + 1, toks + [tok.value];
      assert argv[..newArgc] == starts + [from];
    } else {
      HandedOutLater(buf[..end], starts, toks, from, Limit(idx, end));
      assert argv[..argc] == starts;
    }
  }

  /** `split_line`: the token pointers left in argv are exactly the tokens of the original
      line, each NUL-terminated where there is room, in order and without overlap. */
  method SplitLine(buf: array<char>, bufLen: nat, argv: array<nat>, maxargv: nat)
    returns (argc: nat)
    requires bufLen <= buf.Length && maxargv <= argv.Length
    modifies buf, argv
    ensures argc <= argv.Length
    ensures HandedOut(buf[..bufLen], argv[..argc], Tokens(old(buf[..bufLen]), maxargv), bufLen + 1)
    ensures forall k | bufLen <= k < buf.Length :: buf[k] == old(buf[k])
    ensures forall k | argc <= k < argv.Length :: argv[k] == old(argv[k])
  {
    hide HandedOut, Tokens, TokensAt;
    var idx, end := 0, bufLen;
    argc := 0;
    ghost var s := buf[..bufLen];
    ghost var toks: seq<string> := [];
    StartOfLine(s, argv[..0], maxargv);
    while argc < maxargv && idx < end
      invariant argc <= maxargv && argc == |toks| && idx <= end + 1
      invariant toks + TokensAt(s, idx, maxargv - argc) == Tokens(s, maxargv)
      invariant HandedOut(buf[..end], argv[..argc], toks, Limit(idx, end))
      invariant forall k | idx <= k < end :: buf[k] == s[k]
      invariant forall k | end <= k < buf.Length :: buf[k] == old(buf[k])
      invariant forall k | argc <= k < argv.Length :: argv[k] == old(argv[k])
      decreases end + 1 - idx
    {
      ghost var start := idx;
      while idx < end && IsSpace(buf[idx])
        invariant start <= idx <= end
        invariant toks + TokensAt(s, idx, maxargv - argc) == Tokens(s, maxargv)
        invariant HandedOut(buf[..end], argv[..argc], toks, Limit(idx, end))
        modifies {}
      {
        SkipStep(s, idx, maxargv - argc);
        HandedOutLater(buf[..end], argv[..argc], toks, idx, Limit(idx + 1, end));
        idx := idx + 1;
      }
      if idx >= end {
        break;
      }
      idx, argc, toks := EmitToken(buf, end, argv, maxargv, idx, argc, s, toks);
    }
    EndOfLine(buf[..end], s, argv[..argc], toks, idx, maxargv - argc);
    assert toks + [] == toks;
  }

  lemma EndOfLine(b: string, s: string, starts: seq<nat>, toks: seq<string>, idx: nat, max: nat)
    requires max == 0 || idx >= |s|
    requires HandedOut(b, starts, toks, Limit(idx, |s|))
    ensures TokensAt(s, idx, max) == [] && HandedOut(b, starts, toks, |s| + 1)
  {
  }

  lemma StartOfLine(s: string, none: seq<nat>, max: nat)
    requires none == []
    ensures HandedOut(s, none, [], Limit(0, |s|)) && [] + TokensAt(s, 0, max) == Tokens(s, max)
  {
    assert s[0..] == s;
  }

  // ---- Writing arguments: the inverse of splitting

  /** How an argument is written: as it is, or between quote marks. */
  datatype Style = Bare | Quoted(mark: char)

  datatype Arg = Arg(text: string, style: Style)

  predicate IsMark(c: char) {
    c == '"' || c == '\''
  }

  /** A bare argument must not be empty nor hold blanks or quote marks. */
  predicate Writable(a: Arg) {
    if a.style == Bare then a.text != "" && forall c | c in a.text :: !IsSpace(c) && !IsMark(c)
    else IsMark(a.style.mark)
  }

  /** Escapes the quote mark and the backslash. */
  function Escape(s: string, mark: char): string {
    if s == "" then "" else (if s[0] == mark || s[0] == '\\' then ['\\', s[0]] else [s[0]]) + Escape(s[1..], mark)
  }

  function Written(a: Arg): string {
    if a.style == Bare then a.text else [a.style.mark] + Escape(a.text, a.style.mark) + [a.style.mark]
  }

  function Join(args: seq<Arg>): string {
    if args == [] then ""
    else if |args| == 1 then Written(args[0])
    else Written(args[0]) + ([' '] + Join(args[1..]))
  }

  /** The texts of the arguments that are not empty. */
  function Texts(args: seq<Arg>): seq<string> {
    if args == [] then [] else (if args[0].text == "" then [] else [args[0].text]) + Texts(args[1..])
  }

  function Take(args: seq<string>, max: nat): seq<string> {
    if |args| <= max then args else args[..max]
  }

  function Extend(tok: Option<string>, s: string): Option<string> {
    if s == "" then tok else Some((if tok.Some? then tok.value else "") + s)
  }

  lemma BodyOpen(mark: char, t: string, tok: Option<string>)
    requires IsMark(mark)
    ensures Body([mark] + t, None, tok) == Body(t, Some(mark), tok)
  {
    assert ([mark] + t)[1..] == t;
  }

  lemma BodyClose(mark: char, t: string, tok: Option<string>)
    requires IsMark(mark)
    ensures Body([mark] + t, Some(mark), tok) == Body(t, None, tok)
  {
    assert ([mark] + t)[1..] == t;
  }

  lemma BodyEscaped(c: char, t: string, mark: char, tok: Option<string>)
    ensures Body(['\\'] + ([c] + t), Some(mark), tok) == Body(t, Some(mark), Append(tok, c))
  {
    assert (['\\'] + ([c] + t))[1..] == [c] + t && ([c] + t)[1..] == t;
  }

  lemma BodyPlain(c: char, t: string, mark: char, tok: Option<string>)
    requires c != mark && c != '\\'
    ensures Body([c] + t, Some(mark), tok) == Body(t, Some(mark), Append(tok, c))
  {
    assert ([c] + t)[1..] == t;
  }

  lemma BodySpace(t: string, tok: Option<string>)
    ensures Body([' '] + t, None, tok) == if tok == None then Body(t, None, None) else (tok, t)
  {
    assert ([' '] + t)[1..] == t;
  }

  /** Reading an escaped string between its marks collects the string itself. */
  lemma {:induction false} BodyOfEscaped(s: string, mark: char, rest: string, tok: Option<string>)
    requires IsMark(mark)
    ensures Body(Escape(s, mark) + ([mark] + rest), Some(mark), tok) == Body(rest, None, Extend(tok, s))
  {
    hide Body, Extend, Escape;
    var close := [mark] + rest;
    if s == "" {
      assert Escape("", mark) + close == close by {
        EscapeNothing(mark);
      }
      BodyClose(mark, rest, tok);
      ExtendNothing(tok);
    } else {
      var (c, t) := (s[0], s[1..]);
      BodyOfEscaped(t, mark, rest, Append(tok, c));
      ExtendHead(tok, s);
      EscapeHead(s, mark, close);
      if c == mark || c == '\\' {
        BodyEscaped(c, Escape(t, mark) + close, mark, tok);
      } else {
        BodyPlain(c, Escape(t, mark) + close, mark, tok);
      }
    }
  }

  lemma EscapeHead(s: string, mark: char, rest: string)
    requires s != ""
    ensures Escape(s, mark) + rest
         == (if s[0] == mark || s[0] == '\\' then ['\\'] + ([s[0]] + (Escape(s[1..], mark) + rest))
             else [s[0]] + (Escape(s[1..], mark) + rest))
  {
  }

  lemma EscapeNothing(mark: char)
    ensures Escape("", mark) == ""
  {
  }

  lemma ExtendNothing(tok: Option<string>)
    ensures Extend(tok, "") == tok
  {
  }

  lemma ExtendHead(tok: Option<string>, s: string)
    requires s != ""
    ensures Extend(Append(tok, s[0]), s[1..]) == Extend(tok, s)
  {
    var pre := if tok.Some? then tok.value else "";
    assert pre + s == pre + [s[0]] + s[1..];
    assert tok == None ==> pre + [s[0]] == [s[0]];
    assert s[1..] == "" ==> pre + s == pre + [s[0]];
  }

  /** Outside quotes a byte that is no blank and no quote mark belongs to the token; so does a
      backslash. */
  lemma BodyOutside(c: char, t: string, tok: Option<string>)
    requires !IsSpace(c) && !IsMark(c)
    ensures Body([c] + t, None, tok) == Body(t, None, Append(tok, c))
  {
    assert ([c] + t)[1..] == t;
  }

  lemma {:induction false} BodyOfBare(s: string, rest: string, tok: Option<string>)
    requires forall c | c in s :: !IsSpace(c) && !IsMark(c)
    ensures Body(s + rest, None, tok) == Body(rest, None, Extend(tok, s))
  {
    hide Body, Extend, IsSpace, IsMark;
    if s == "" {
      assert s + rest == rest;
      ExtendNothing(tok);
    } else {
      assert s[0] in s;
      assert s + rest == [s[0]] + (s[1..] + rest);
      BodyOutside(s[0], s[1..] + rest, tok);
      BodyOfBare(s[1..], rest, Append(tok, s[0]));
      ExtendHead(tok, s);
    }
  }

  function Wanted(s: string): Option<string> {
    if s == "" then None else Some(s)
  }

  lemma BodyOfWritten(a: Arg, rest: string)
    requires Writable(a)
    ensures Body(Written(a) + rest, None, None) == Body(rest, None, Wanted(a.text))
  {
    hide Body;
    assert "" + a.text == a.text;
    if a.style == Bare {
      BodyOfBare(a.text, rest, None);
    } else {
      var mark := a.style.mark;
      assert Written(a) + rest == [mark] + (Escape(a.text, mark) + ([mark] + rest));
      BodyOpen(mark, Escape(a.text, mark) + ([mark] + rest), None);
      BodyOfEscaped(a.text, mark, rest, None);
    }
  }

  lemma TokensOfWord(line: string, max: nat)
    requires line != "" && !IsSpace(line[0]) && max > 0
    ensures var (tok, rest) := Body(line, None, None);
            Tokens(line, max) == if tok.Some? then [tok.value] + Tokens(rest, max - 1) else Tokens(rest, max)
  {
  }

  lemma NoTokens(line: string, max: nat)
    requires line == "" || max == 0
    ensures Tokens(line, max) == []
  {
  }

  lemma TextsHead(args: seq<Arg>)
    requires args != []
    ensures Texts(args) == if args[0].text == "" then Texts(args[1..]) else [args[0].text] + Texts(args[1..])
  {
  }

  lemma WrittenHead(a: Arg)
    requires Writable(a)
    ensures Written(a) != "" && !IsSpace(Written(a)[0])
  {
    hide Escape;
    if a.style == Bare {
      assert a.text[0] in a.text;
    }
  }

  lemma JoinHead(args: seq<Arg>)
    requires args != [] && Writable(args[0])
    ensures var line := Join(args);
            && line != "" && !IsSpace(line[0])
            && line == Written(args[0]) + if |args| == 1 then "" else [' '] + Join(args[1..])
  {
    hide Written, Writable, IsSpace;
    WrittenHead(args[0]);
  }

  /** Splitting undoes writing, whatever the bytes and whichever way each argument is written;
      only empty arguments vanish, because an empty pair of quotes starts no token. */
  lemma {:induction false} SplitOfWritten(args: seq<Arg>, max: nat)
    requires forall a | a in args :: Writable(a)
    ensures Tokens(Join(args), max) == Take(Texts(args), max)
  {
    hide Body, Take, Written, Writable, Tokens, Texts, IsSpace;
    if args == [] || max == 0 {
      NoTokens(Join(args), max);
      TakeNothing(args);
    } else {
      hide Join;
      var (a, more) := (args[0], args[1..]);
      var line := Join(args);
      assert a in args && forall b | b in more :: b in args;
      JoinHead(args);
      TextsHead(args);
      TokensOfWord(line, max);
      TakeHead(a.text, Texts(more), max);
      SplitOfWritten(more, max);
      SplitOfWritten(more, max - 1);
      if more == [] {
        BodyOfWritten(a, "");
        BodyEmpty(Wanted(a.text));
        JoinNothing();
      } else {
        assert more[0] in more;
        JoinHead(more);
        BodyOfWritten(a, [' '] + Join(more));
        BodySpace(Join(more), Wanted(a.text));
        TokensOfWord(Join(more), max);
      }
    }
  }

  lemma JoinNothing()
    ensures Join([]) == ""
  {
  }

  lemma BodyEmpty(tok: Option<string>)
    ensures Body("", None, tok) == (tok, "")
  {
  }

  lemma TakeNothing(args: seq<Arg>)
    ensures Take(Texts(args), 0) == [] && forall m: nat :: Take(Texts([]), m) == []
  {
  }

  lemma TakeHead(a: string, args: seq<string>, max: nat)
    requires max > 0
    ensures Take([a] + args, max) == [a] + Take(args, max - 1)
  {
  }

  // ---- A list of strings, quoted

  /** Every argument between double quotes. */
  function AllQuoted(args: seq<string>): seq<Arg> {
    seq(|args|, i requires 0 <= i < |args| => Arg(args[i], Quoted('"')))
  }

  lemma {:induction false} QuotedTexts(args: seq<string>)
    ensures |Texts(AllQuoted(args))| <= |args|
    ensures Texts(AllQuoted(args)) == args <==> "" !in args
  {
    if args != [] {
      QuotedTexts(args[1..]);
      assert AllQuoted(args)[1..] == AllQuoted(args[1..]);
      assert args == [args[0]] + args[1..];
      if args[0] == "" {
        assert |Texts(AllQuoted(args))| < |args|;
      }
    }
  }

  /** A list of arguments survives quoting, joining and splitting exactly when it fits in argv
      and no argument is empty. */
  lemma QuotedListSurvives(args: seq<string>, max: nat)
    ensures Tokens(Join(AllQuoted(args)), max) == args <==> |args| <= max && "" !in args
  {
    SplitOfWritten(AllQuoted(args), max);
    QuotedTexts(args);
    hide Join, Texts, Tokens;
    var (texts, toks) := (Texts(AllQuoted(args)), Tokens(Join(AllQuoted(args)), max));
    if toks == args {
      assert |Take(texts, max)| == |args| <= max;
    }
  }

  /** A line whose second argument vanishes. */
  lemma EmptyArgumentLost()
    ensures Tokens("a \"\" b", 16) == ["a", "b"]
  {
    var args := [Arg("a", Bare), Arg("", Quoted('"')), Arg("b", Bare)];
    SplitOfWritten(args, 16);
    EmptyArgumentTexts();
    EmptyArgumentLine();
  }

  lemma EmptyArgumentTexts()
    ensures Take(Texts([Arg("a", Bare), Arg("", Quoted('"')), Arg("b", Bare)]), 16) == ["a", "b"]
  {
    TextsHead([Arg("a", Bare), Arg("", Quoted('"')), Arg("b", Bare)]);
    TextsHead([Arg("", Quoted('"')), Arg("b", Bare)]);
    TextsHead([Arg("b", Bare)]);
    assert [Arg("a", Bare), Arg("", Quoted('"')), Arg("b", Bare)][1..] == [Arg("", Quoted('"')), Arg("b", Bare)];
    assert [Arg("", Quoted('"')), Arg("b", Bare)][1..] == [Arg("b", Bare)];
    assert [Arg("b", Bare)][1..] == [];
  }

  lemma EmptyArgumentLine()
    ensures Join([Arg("a", Bare), Arg("", Quoted('"')), Arg("b", Bare)]) == "a \"\" b"
  {
    assert Written(Arg("a", Bare)) == "a" && Written(Arg("b", Bare)) == "b";
    assert Written(Arg("", Quoted('"'))) == "\"\"";
    assert [Arg("a", Bare), Arg("", Quoted('"')), Arg("b", Bare)][1..] == [Arg("", Quoted('"')), Arg("b", Bare)];
    assert [Arg("", Quoted('"')), Arg("b", Bare)][1..] == [Arg("b", Bare)];
    assert Join([Arg("b", Bare)]) == "b";
    assert Join([Arg("", Quoted('"')), Arg("b", Bare)]) == "\"\"" + ([' '] + "b");
  }
}
