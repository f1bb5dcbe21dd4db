/**
 One line of an ini file: how utils/iniparser.c prints an entry and what its line parser makes
 of a line. The `sscanf` formats are modelled after section 7.19.6.2 of ISO/IEC 9899:1999: a
 scanset matches the longest non-empty run, a blank matches any run of white space, and a
 literal that does not match ends the scan with the items converted so far.
 */
module IniLine {
  import opened CType
  import opened Options

  datatype LineResult =
    | Empty
    | Comment
    | Section(name: string)
    | Value(key: string, value: string)
    | Error

  // ---- Scansets

  /** Length of the longest prefix without a character of `stop`: `%[^...]`. */
  function Until(s: string, stop: set<char>): (n: nat)
    ensures n <= |s| && (forall i | 0 <= i < n :: s[i] !in stop) && (n < |s| ==> s[n] in stop)
  {
    if s == "" || s[0] in stop then 0 else 1 + Until(s[1..], stop)
  }

  /** Length of the longest prefix of characters of `accept`: `%[...]`. */
  function While(s: string, accept: set<char>): (n: nat)
    ensures n <= |s| && (forall i | 0 <= i < n :: s[i] in accept) && (n < |s| ==> s[n] !in accept)
  {
    if s == "" || s[0] !in accept then 0 else 1 + While(s[1..], accept)
  }

  /** The front `%[^=] = ` of three of the formats: the raw key and the input that follows. */
  function ScanKey(line: string): (r: Option<(string, string)>)
    ensures r != None ==> 0 < Until(line, {'='}) < |line| && r.value.0 == line[..Until(line, {'='})]
  {
    var k := Until(line, {'='});
    var rest := TrimLeft(line[k..]);
    if k == 0 || rest == "" || rest[0] != '=' then None else Some((line[..k], TrimLeft(rest[1..])))
  }

  /** Whether `"%[^=] = Q%[^Q]Q"` converts both items; the closing quote is not needed. */
  function ScanQuoted(line: string, q: char): (r: Option<(string, string)>)
    ensures r != None ==> 0 < Until(line, {'='}) < |line| && r.value.0 == line[..Until(line, {'='})]
  {
    var s := ScanKey(line);
    if s == None || s.value.1 == "" || s.value.1[0] != q then None
    else
      var n := Until(s.value.1[1..], {q});
      if n == 0 then None else Some((s.value.0, s.value.1[1..][..n]))
  }

  /** `"%[^=] = %[^;#]"`. */
  function ScanPlain(line: string): (r: Option<(string, string)>)
    ensures r != None ==> 0 < Until(line, {'='}) < |line| && r.value.0 == line[..Until(line, {'='})]
  {
    var s := ScanKey(line);
    if s == None then None
    else
      var n := Until(s.value.1, {';', '#'});
      if n == 0 then None else Some((s.value.0, s.value.1[..n]))
  }

  /** `"%[^=] = %[;#]"`. */
  function ScanMarks(line: string): (r: Option<(string, string)>)
    ensures r != None ==> 0 < Until(line, {'='}) < |line| && r.value.0 == line[..Until(line, {'='})]
  {
    var s := ScanKey(line);
    if s == None then None
    else
      var n := While(s.value.1, {';', '#'});
      if n == 0 then None else Some((s.value.0, s.value.1[..n]))
  }

  /** `"%[^=] %[=]"`. */
  function ScanEquals(line: string): (r: Option<(string, string)>)
    ensures r != None ==> 0 < Until(line, {'='}) < |line| && r.value.0 == line[..Until(line, {'='})]
  {
    var k := Until(line, {'='});
    var rest := TrimLeft(line[k..]);
    var n := While(rest, {'='});
    if k == 0 || n == 0 then None else Some((line[..k], rest[..n]))
  }

  /** `"[%[^]]"`. */
  function ScanSection(line: string): Option<string> {
    if line == "" || line[0] != '[' then None
    else
      var n := Until(line[1..], {']'});
      if n == 0 then None else Some(line[1..][..n])
  }

  function Cut(s: string, n: int): string {
    if n <= 0 then "" else if |s| <= n then s else s[..n]
  }

  /** `strstrip(x); strlwc(x, x, len)`. */
  function Cleaned(raw: string, len: nat): string {
    Lower(Cut(Strip(raw), len - 1))
  }

  /** "sscanf cannot handle '' or "" as empty values, this is done here". */
  function EmptyQuotes(v: string): string {
    if v == ['"', '"'] || v == ['\'', '\''] then "" else v
  }

  /** The branches of `iniparser_line` for a line that is no blank, comment or section. */
  function KeyValue(line: string): LineResult {
    var len := |line|;
    if ScanQuoted(line, '"') != None then
      Value(Cleaned(ScanQuoted(line, '"').value.0, len), ScanQuoted(line, '"').value.1)
    else if ScanQuoted(line, '\'') != None then
      Value(Cleaned(ScanQuoted(line, '\'').value.0, len), ScanQuoted(line, '\'').value.1)
    else if ScanPlain(line) != None then
      Value(Cleaned(ScanPlain(line).value.0, len), EmptyQuotes(Strip(ScanPlain(line).value.1)))
    else if ScanMarks(line) != None then Value(Cleaned(ScanMarks(line).value.0, len), "")
    else if ScanEquals(line) != None then Value(Cleaned(ScanEquals(line).value.0, len), "")
    else Error
  }

  /** `iniparser_line`; `section` is what the section buffer holds beforehand, which is what
      remains in it when the section scan fails. */
  function ParseLine(input: string, section: string): LineResult {
    var line := Strip(input);
    var len := |line|;
    if len < 1 then Empty
    else if line[0] == '#' || line[0] == ';' then Comment
    else if line[0] == '[' && line[len - 1] == ']' then
      var scanned := ScanSection(line);
      Section(Cleaned(if scanned == None then section else scanned.value, len))
    else KeyValue(line)
  }

  /** What `iniparser_load` does with the text in its line buffer: a trailing backslash keeps
      the text before it for the next read, anything else is parsed. */
  datatype Outcome = Continues(prefix: string) | Parsed(result: LineResult)

  function LoadedLine(text: string, section: string): Outcome {
    var t := TrimRight(text);
    if t != "" && t[|t| - 1] == '\\' then Continues(t[..|t| - 1]) else Parsed(ParseLine(t, section))
  }

  // ---- Printing

  function Spaces(n: nat): (r: string)
    ensures |r| == n && forall i | 0 <= i < n :: r[i] == ' '
  {
    seq(n, _ => ' ')
  }

  /** The blanks that `%-30s` puts behind a key. */
  function PadOf(k: string): nat {
    if |k| < 30 then 30 - |k| else 0
  }

  function PrintPadded(k: string, pad: nat, v: string): string {
    k + Spaces(pad) + " = " + v
  }

  /** `"%-30s = %s"`, without the newline. */
  function PrintEntry(k: string, v: string): string {
    PrintPadded(k, PadOf(k), v)
  }

  function PrintSection(s: string): string {
    "[" + s + "]"
  }

  // ---- What survives printing and parsing

  predicate PrintableKey(k: string) {
    && k != "" && Stripped(k) && Lower(k) == k
    && '=' !in k && k[0] != '#' && k[0] != ';'
  }

  /** A value that starts with a quote directly followed by something else is taken for a
      quoted value; a lone pair of quotes is taken for the empty value. */
  predicate LooksQuoted(v: string) {
    || (|v| >= 2 && (v[0] == '"' || v[0] == '\'') && v[1] != v[0])
    || v == ['"', '"'] || v == ['\'', '\'']
  }

  predicate PrintableValue(v: string) {
    Stripped(v) && ';' !in v && '#' !in v && !LooksQuoted(v) && (v == "" || v[|v| - 1] != '\\')
  }

  predicate Printable(k: string, v: string) {
    PrintableKey(k) && PrintableValue(v) && !(k[0] == '[' && v != "" && v[|v| - 1] == ']')
  }

  predicate PrintableSection(s: string) {
    s != "" && Stripped(s) && Lower(s) == s && ']' !in s
  }

  // ---- Proofs

  /** Every key the parser reports is a printable one, whatever the line. */
  lemma KeyShape(input: string, section: string)
    requires ParseLine(input, section).Value?
    ensures PrintableKey(ParseLine(input, section).key)
    ensures ParseLine(input, section).key[0] == '[' ==> Strip(input)[|Strip(input)| - 1] != ']'
  {
    hide Strip, Cleaned, PrintableKey, ScanQuoted, ScanPlain, ScanMarks, ScanEquals, ScanSection, Until;
    StripStripped(input);
    var line := Strip(input);
    var k := Until(line, {'='});
    KeyCleaned(line, k);
  }

  lemma KeyCleaned(line: string, k: nat)
    requires Stripped(line) && 0 < k < |line| && (forall i | 0 <= i < k :: line[i] != '=')
    requires line[0] != '#' && line[0] != ';'
    ensures var key := Cleaned(line[..k], |line|); PrintableKey(key) && (key[0] == '[' ==> line[0] == '[')
  {
    hide TrimRight, TrimLeft;
    var raw := line[..k];
    FirstSurvives(raw);
    StripStripped(raw);
    var s := Strip(raw);
    assert Cut(s, |line| - 1) == s;
    LowerKeeps(s);
    assert '=' !in s;
    assert Lower(s)[0] == ToLower(line[0]);
  }

  /** The raw key of a printed entry. */
  function Raw(k: string, pad: nat): string {
    k + Spaces(pad) + [' ']
  }

  /** A printed entry as it reaches the line parser, trimmed at the right end. */
  function Trimmed(k: string, pad: nat, v: string): string {
    Raw(k, pad) + (['='] + TrimRight([' '] + v))
  }

  lemma PrintedTrimmed(k: string, pad: nat, v: string)
    requires k != "" && Stripped(k)
    ensures TrimRight(PrintPadded(k, pad, v)) == Trimmed(k, pad, v) && Strip(Trimmed(k, pad, v)) == Trimmed(k, pad, v)
  {
    hide TrimRight, TrimLeft;
    var a := Raw(k, pad) + ['='];
    assert PrintPadded(k, pad, v) == a + ([' '] + v);
    TrimRightAfter(a, [' '] + v);
    assert Trimmed(k, pad, v) == a + TrimRight([' '] + v);
    assert Trimmed(k, pad, v)[0] == k[0];
    FirstSurvives(Trimmed(k, pad, v));
    TrimRightTwice(PrintPadded(k, pad, v));
  }

  lemma ValueTrimmed(v: string)
    ensures TrimLeft(TrimRight([' '] + v)) == Strip(v)
  {
    hide TrimRight, TrimLeft;
    TrimCommute([' '] + v);
    TrimLeftSpaces([' '], v);
  }

  lemma TrimRightTwice(s: string)
    ensures TrimRight(TrimRight(s)) == TrimRight(s)
  {
  }

  lemma RawHasNoEquals(k: string, pad: nat)
    requires '=' !in k
    ensures |Raw(k, pad)| > |k| && forall i | 0 <= i < |Raw(k, pad)| :: Raw(k, pad)[i] !in {'='}
  {
  }

  lemma UntilPrinted(k: string, pad: nat, v: string)
    requires '=' !in k
    ensures var (line, n) := (Trimmed(k, pad, v), |Raw(k, pad)|);
            && Until(line, {'='}) == n && line[..n] == Raw(k, pad) && line[n..] == ['='] + TrimRight([' '] + v)
  {
    hide TrimRight, Raw;
    RawHasNoEquals(k, pad);
    UntilAt(Trimmed(k, pad, v), {'='}, |Raw(k, pad)|);
  }

  lemma EqualsFirst(tail: string)
    ensures TrimLeft(['='] + tail) == ['='] + tail && While(['='] + tail, {'='}) > 0 && (['='] + tail)[1..] == tail
  {
  }

  lemma ScanFrontKey(line: string, n: nat, tail: string)
    requires Until(line, {'='}) == n > 0 && line[n..] == ['='] + tail
    ensures ScanKey(line) == Some((line[..n], TrimLeft(tail)))
  {
    hide Until, TrimLeft, While;
    EqualsFirst(tail);
  }

  lemma ScanFrontEquals(line: string, n: nat, tail: string)
    requires Until(line, {'='}) == n > 0 && line[n..] == ['='] + tail
    ensures ScanEquals(line) != None
  {
    hide Until, TrimLeft, While;
    EqualsFirst(tail);
  }

  /** Scanning the front of a printed entry finds the key and the value without blanks. */
  lemma ScanPrinted(k: string, pad: nat, v: string)
    requires k != "" && Stripped(k) && '=' !in k
    ensures ScanKey(Trimmed(k, pad, v)) == Some((Raw(k, pad), Strip(v)))
  {
    ValueTrimmed(v);
    UntilPrinted(k, pad, v);
    RawHasNoEquals(k, pad);
    hide TrimRight, TrimLeft, Strip, Raw, Trimmed, Until, ScanKey;
    ScanFrontKey(Trimmed(k, pad, v), |Raw(k, pad)|, TrimRight([' '] + v));
  }

  lemma ScanPrintedEquals(k: string, pad: nat, v: string)
    requires k != "" && Stripped(k) && '=' !in k
    ensures ScanEquals(Trimmed(k, pad, v)) != None
  {
    UntilPrinted(k, pad, v);
    RawHasNoEquals(k, pad);
    hide TrimRight, TrimLeft, Raw, Trimmed, Until, ScanEquals;
    ScanFrontEquals(Trimmed(k, pad, v), |Raw(k, pad)|, TrimRight([' '] + v));
  }

  lemma {:induction false} UntilAt(s: string, stop: set<char>, n: nat)
    requires n < |s| && (forall i | 0 <= i < n :: s[i] !in stop) && s[n] in stop
    ensures Until(s, stop) == n
  {
    if n > 0 {
      UntilAt(s[1..], stop, n - 1);
    }
  }

  lemma RawStrips(k: string, pad: nat)
    requires k != "" && Stripped(k)
    ensures Strip(Raw(k, pad)) == k
  {
    hide TrimRight, TrimLeft;
    var b := Spaces(pad) + [' '];
    assert Raw(k, pad) == k + b;
    assert AllSpaces(b);
    FirstSurvives(k);
    FirstSurvives(k + b);
    TrimRightSpaces(k, b);
    StripStripped(k);
  }

  lemma RawCleans(k: string, pad: nat, len: nat)
    requires PrintableKey(k) && len > |Raw(k, pad)|
    ensures Cleaned(Raw(k, pad), len) == k
  {
    RawStrips(k, pad);
    hide Strip, Raw;
    assert |k| <= |Raw(k, pad)| by {
      StripStripped(Raw(k, pad));
    }
  }

  // ---- A printed entry, parsed

  function Quoted(w: string, q: char): Option<string> {
    if w == "" || w[0] != q then None
    else
      var n := Until(w[1..], {q});
      if n == 0 then None else Some(w[1..][..n])
  }

  /** What the parser makes of a printed value whose blanks are gone. */
  function ValueOf(w: string): string {
    if Quoted(w, '"') != None then Quoted(w, '"').value
    else if Quoted(w, '\'') != None then Quoted(w, '\'').value
    else
      EmptyQuotes(Strip(w[..Until(w, {';', '#'})]))
  }

  predicate LooksLikeSection(k: string, w: string)
    requires k != ""
  {
    k[0] == '[' && w != "" && w[|w| - 1] == ']'
  }

  lemma TrimmedEnds(k: string, pad: nat, v: string)
    requires k != ""
    ensures Trimmed(k, pad, v) != "" && Trimmed(k, pad, v)[0] == k[0]
    ensures var w := Strip(v); Trimmed(k, pad, v)[|Trimmed(k, pad, v)| - 1] == LastByte(w)
  {
    hide TrimRight, Spaces, Strip, LastByte;
    ValueEnd(v);
  }

  lemma ValueEnd(v: string)
    ensures var x := ['='] + TrimRight([' '] + v); x[|x| - 1] == LastByte(Strip(v))
  {
    hide TrimRight, TrimLeft, Strip;
    ValueTrimmed(v);
    var x := TrimRight([' '] + v);
    TrimLeftEnd(x);
    if TrimLeft(x) == "" {
      RightAllSpaces(x);
    }
  }

  lemma {:induction false} TrimLeftEnd(x: string)
    ensures TrimLeft(x) != "" ==> x[|x| - 1] == TrimLeft(x)[|TrimLeft(x)| - 1]
    ensures TrimLeft(x) == "" ==> AllSpaces(x)
  {
    if x != "" && IsSpace(x[0]) {
      TrimLeftEnd(x[1..]);
      assert forall i | 0 < i < |x| :: x[i] == x[1..][i - 1];
    }
  }

  /** A right-trimmed string of blanks is empty. */
  lemma RightAllSpaces(x: string)
    requires AllSpaces(x) && (x != "" ==> !IsSpace(x[|x| - 1]))
    ensures x == ""
  {
  }

  lemma ScansGiven(line: string, raw: string, w: string, q: char)
    requires ScanKey(line) == Some((raw, w))
    ensures ScanQuoted(line, q) == if Quoted(w, q) == None then None else Some((raw, Quoted(w, q).value))
    ensures ScanPlain(line) == if Until(w, {';', '#'}) == 0 then None else Some((raw, w[..Until(w, {';', '#'})]))
    ensures ScanMarks(line) == if While(w, {';', '#'}) == 0 then None else Some((raw, w[..While(w, {';', '#'})]))
  {
    hide ScanKey, Until, While;
  }

  /** The line parser's decisions, given what the formats find. */
  lemma ParsedByScans(input: string, section: string, raw: string, w: string)
    requires var line := Strip(input);
             && line != "" && line[0] != '#' && line[0] != ';' && !(line[0] == '[' && line[|line| - 1] == ']')
             && ScanKey(line) == Some((raw, w)) && ScanEquals(line) != None && ScanEquals(line).value.0 == raw
    ensures ParseLine(input, section) == Value(Cleaned(raw, |Strip(input)|), ValueOf(w))
  {
    StripNothing();
    assert w[..0] == "";
    ScansGiven(Strip(input), raw, w, '"');
    ScansGiven(Strip(input), raw, w, '\'');
    hide Strip, Cleaned, Until, ScanKey, ScanEquals, ScanSection, ScanQuoted, ScanPlain, ScanMarks, Quoted, EmptyQuotes;
  }

  /** The parse of a printed entry depends on the key and the value as one would wish. */
  lemma EntryParsed(k: string, v: string, section: string)
    requires PrintableKey(k) && !LooksLikeSection(k, Strip(v))
    ensures ParseLine(TrimRight(PrintEntry(k, v)), section) == Value(k, ValueOf(Strip(v)))
  {
    PaddedParsed(k, PadOf(k), v, section);
    hide ParseLine, TrimRight, Strip, ValueOf, PrintPadded;
  }

  /** However many blanks stand behind the key. */
  lemma PaddedParsed(k: string, pad: nat, v: string, section: string)
    requires PrintableKey(k) && !LooksLikeSection(k, Strip(v))
    ensures ParseLine(TrimRight(PrintPadded(k, pad, v)), section) == Value(k, ValueOf(Strip(v)))
  {
    hide *;
    KeyFacts(k);
    PrintedTrimmed(k, pad, v);
    TrimmedEnds(k, pad, v);
    ScanPrinted(k, pad, v);
    ScanPrintedEquals(k, pad, v);
    RawHasNoEquals(k, pad);
    UntilPrinted(k, pad, v);
    RawCleans(k, pad, |Trimmed(k, pad, v)|);
    SectionFacts(k, Strip(v));
    ParsedByScans(TrimRight(PrintPadded(k, pad, v)), section, Raw(k, pad), Strip(v));
  }

  lemma KeyFacts(k: string)
    requires PrintableKey(k)
    ensures k != "" && Stripped(k) && '=' !in k && k[0] != '#' && k[0] != ';'
  {
  }

  lemma SectionFacts(k: string, w: string)
    requires k != "" && !LooksLikeSection(k, w)
    ensures !(k[0] == '[' && LastByte(w) == ']')
  {
  }

  lemma StripNothing()
    ensures Strip("") == "" && EmptyQuotes("") == ""
  {
  }

  lemma ParsedAsSection(input: string, section: string)
    requires Strip(input) != "" && Strip(input)[0] == '[' && Strip(input)[|Strip(input)| - 1] == ']'
    ensures var (line, x) := (Strip(input), ScanSection(Strip(input)));
            ParseLine(input, section) == Section(Cleaned(if x == None then section else x.value, |line|))
  {
    hide Strip, Cleaned, ScanSection, ScanQuoted, ScanPlain, ScanMarks, ScanEquals;
  }

  /** A line without blanks at its ends, and its first and last byte. */
  predicate Ends(t: string, first: char, last: char) {
    t != "" && Strip(t) == t && t[0] == first && t[|t| - 1] == last
  }

  /** The last byte of a printed entry whose value without blanks is w. */
  function LastByte(w: string): char {
    if w == "" then '=' else w[|w| - 1]
  }

  /** Both ends of a printed entry. */
  lemma EntryEnds(k: string, v: string)
    requires k != "" && Stripped(k)
    ensures Ends(TrimRight(PrintEntry(k, v)), k[0], LastByte(Strip(v)))
  {
    hide *;
    EntryIs(k, v);
    PrintedTrimmed(k, PadOf(k), v);
    TrimmedEnds(k, PadOf(k), v);
    EndsAre(Trimmed(k, PadOf(k), v));
  }

  lemma EntryIs(k: string, v: string)
    ensures PrintEntry(k, v) == PrintPadded(k, PadOf(k), v)
  {
  }

  lemma EndsAre(t: string)
    requires t != "" && Strip(t) == t
    ensures Ends(t, t[0], t[|t| - 1])
  {
    hide Strip;
  }

  lemma EntryIsSection(k: string, v: string, section: string)
    requires PrintableKey(k) && LooksLikeSection(k, Strip(v))
    ensures ParseLine(TrimRight(PrintEntry(k, v)), section).Section?
  {
    LooksFacts(k, Strip(v));
    hide *;
    KeyFacts(k);
    EntryEnds(k, v);
    EndsSection(TrimRight(PrintEntry(k, v)), section);
  }

  lemma EndsSection(t: string, section: string)
    requires Ends(t, '[', ']')
    ensures ParseLine(t, section).Section?
  {
    hide Strip, ParseLine;
    ParsedAsSection(t, section);
  }

  lemma LooksFacts(k: string, w: string)
    requires k != "" && LooksLikeSection(k, w)
    ensures k[0] == '[' && w != "" && w[|w| - 1] == ']'
  {
  }

  // ---- Exactly the printable entries survive

  lemma UntilNone(w: string, stop: set<char>)
    ensures Until(w, stop) == |w| <==> forall c | c in stop :: c !in w
  {
    var n := Until(w, stop);
    if n < |w| {
      assert w[n] in stop && w[n] in w;
    } else {
      forall c | c in stop
        ensures c !in w
      {
        assert forall i | 0 <= i < |w| :: w[i] != c;
      }
    }
  }

  lemma QuotedIffLooks(w: string)
    ensures Quoted(w, '"') != None || Quoted(w, '\'') != None
            <==> |w| >= 2 && (w[0] == '"' || w[0] == '\'') && w[1] != w[0]
    ensures forall q :: Quoted(w, q) != None ==> |Quoted(w, q).value| < |w|
  {
    if w != "" {
      UntilFirst(w[1..], w[0]);
    }
  }

  lemma UntilFirst(s: string, q: char)
    ensures Until(s, {q}) > 0 <==> s != "" && s[0] != q
  {
  }

  lemma ValueOfPlain(v: string)
    requires PrintableValue(v)
    ensures ValueOf(v) == v
  {
    QuotedIffLooks(v);
    UntilNone(v, {';', '#'});
    StripStripped(v);
    hide Quoted, Until, Strip, Stripped;
    assert v[..|v|] == v;
  }

  lemma ValueOfOnlyPlain(v: string)
    requires ValueOf(Strip(v)) == v
    ensures Stripped(v) && Strip(v) == v && ';' !in v && '#' !in v && !LooksQuoted(v)
  {
    hide Quoted, Until, Strip, TrimLeft, TrimRight;
    var w := Strip(v);
    var n := Until(w, {';', '#'});
    StripStripped(v);
    QuotedIffLooks(w);
    assert Quoted(w, '"') == None && Quoted(w, '\'') == None;
    StripStripped(w[..n]);
    UntilBound(w);
    UntilNone(w, {';', '#'});
    StripNothing();
    assert |w| == |v|;
    assert w[..n] == w;
  }

  lemma UntilBound(w: string)
    ensures Until(w, {';', '#'}) <= |w|
  {
  }

  /** Printing an entry and loading the line gives the entry back exactly when it is
      printable. */
  lemma EntrySurvives(k: string, v: string, section: string)
    ensures LoadedLine(PrintEntry(k, v), section) == Parsed(Value(k, v)) <==> Printable(k, v)
  {
    if Printable(k, v) {
      EntryPrintable(k, v, section);
    }
    if LoadedLine(PrintEntry(k, v), section) == Parsed(Value(k, v)) {
      EntryOnlyPrintable(k, v, section);
    }
  }

  /** A printed entry is kept for the next line exactly when its last byte is a backslash. */
  lemma EntryRead(k: string, v: string, section: string)
    requires k != "" && Stripped(k)
    ensures LastByte(Strip(v)) == '\\' <==> LoadedLine(PrintEntry(k, v), section).Continues?
    ensures LastByte(Strip(v)) != '\\' ==>
              LoadedLine(PrintEntry(k, v), section) == Parsed(ParseLine(TrimRight(PrintEntry(k, v)), section))
  {
    hide *;
    EntryEnds(k, v);
    EndsRead(PrintEntry(k, v), k[0], LastByte(Strip(v)), section);
  }

  lemma EndsRead(text: string, first: char, last: char, section: string)
    requires Ends(TrimRight(text), first, last)
    ensures last == '\\' <==> LoadedLine(text, section).Continues?
    ensures last != '\\' ==> LoadedLine(text, section) == Parsed(ParseLine(TrimRight(text), section))
  {
    hide TrimRight, ParseLine, Strip;
  }

  lemma EntryPrintable(k: string, v: string, section: string)
    requires Printable(k, v)
    ensures LoadedLine(PrintEntry(k, v), section) == Parsed(Value(k, v))
  {
    EntryRead(k, v, section);
    StripStripped(v);
    EntryParsed(k, v, section);
    ValueOfPlain(v);
    hide Strip, TrimRight, PrintEntry, ParseLine, ValueOf, LoadedLine, Stripped;
  }

  lemma EntryOnlyPrintable(k: string, v: string, section: string)
    requires LoadedLine(PrintEntry(k, v), section) == Parsed(Value(k, v))
    ensures Printable(k, v)
  {
    ReadAsParsed(PrintEntry(k, v), section);
    ReadKeyShape(PrintEntry(k, v), section, k, v);
    NotSectionLine(k, v, section);
    EntryRead(k, v, section);
    EntryParsed(k, v, section);
    ValueOfOnlyPlain(v);
    hide Strip, TrimRight, PrintEntry, ParseLine, ValueOf, LoadedLine, Stripped, PrintableKey, LooksQuoted;
  }

  lemma ReadAsParsed(text: string, section: string)
    requires LoadedLine(text, section).Parsed?
    ensures LoadedLine(text, section) == Parsed(ParseLine(TrimRight(text), section))
  {
    hide ParseLine, TrimRight;
  }

  lemma ReadKeyShape(text: string, section: string, k: string, v: string)
    requires ParseLine(TrimRight(text), section) == Value(k, v)
    ensures PrintableKey(k) && k != "" && Stripped(k)
  {
    KeyShape(TrimRight(text), section);
    hide ParseLine, TrimRight;
  }

  lemma NotSectionLine(k: string, v: string, section: string)
    requires PrintableKey(k) && ParseLine(TrimRight(PrintEntry(k, v)), section).Value?
    ensures !LooksLikeSection(k, Strip(v))
  {
    hide ParseLine, TrimRight, PrintEntry, Strip, LooksLikeSection;
    if LooksLikeSection(k, Strip(v)) {
      EntryIsSection(k, v, section);
    }
  }

  lemma Literals()
    ensures PrintableKey("k") && Strip("a") == "a" && Strip("a;b") == "a;b" && Strip("video") == "video"
    ensures Until("a;b", {';', '#'}) == 1 && "a;b"[..1] == "a"
  {
    LiteralShapes();
    hide *;
    StripStripped("a");
    StripStripped("a;b");
    StripStripped("video");
    UntilAt("a;b", {';', '#'}, 1);
  }

  lemma LiteralShapes()
    ensures PrintableKey("k") && Stripped("a") && Stripped("a;b") && Stripped("video")
    ensures "a;b"[..1] == "a"
  {
    hide Strip, Until;
    assert Lower("k") == "k";
  }

  lemma SemicolonCuts()
    ensures ValueOf("a;b") == "a"
  {
    Literals();
    hide Strip, Until, PrintableKey;
    assert Quoted("a;b", '"') == None && Quoted("a;b", '\'') == None;
  }

  /** A value that does not survive: the comment mark ends it. */
  lemma SemicolonLost(section: string)
    ensures LoadedLine(PrintEntry("k", "a;b"), section) == Parsed(Value("k", "a"))
  {
    Literals();
    SemicolonCuts();
    KeyFacts("k");
    NoSection();
    hide *;
    EntryRead("k", "a;b", section);
    EntryParsed("k", "a;b", section);
  }

  lemma NoSection()
    ensures !LooksLikeSection("k", "a;b")
  {
  }

  // ---- Exactly the printable section names survive

  /** A section line gives its name back whatever section was read before, exactly when the name
      is printable. */
  lemma SectionSurvives(s: string)
    ensures (forall section :: LoadedLine(PrintSection(s), section) == Parsed(Section(s))) <==> PrintableSection(s)
  {
    SectionParsed(s, "");
    SectionParsed(s, "x");
    if PrintableSection(s) {
      forall section
        ensures LoadedLine(PrintSection(s), section) == Parsed(Section(s))
      {
        SectionParsed(s, section);
        SectionName(s, section);
      }
    }
    if forall section :: LoadedLine(PrintSection(s), section) == Parsed(Section(s)) {
      assert LoadedLine(PrintSection(s), "") == Parsed(Section(s));
      assert LoadedLine(PrintSection(s), "x") == Parsed(Section(s));
      SectionNameOnly(s);
    }
  }

  /** The name left in the section buffer by the line "[s]". */
  function ReadName(s: string, section: string): string {
    var n := Until(s, {']'});
    Cleaned(if n == 0 then section else s[..n], |s| + 2)
  }

  lemma SectionParsed(s: string, section: string)
    ensures LoadedLine(PrintSection(s), section) == Parsed(Section(ReadName(s, section)))
  {
    hide *;
    SectionShape(s);
    SectionTrim(s);
    SectionScan(s);
    NotContinued(PrintSection(s), section);
    ReadNameIs(s, section);
    ParsedAsSection(PrintSection(s), section);
  }

  /** The line "[]" leaves the first byte of the section read before. */
  lemma StaleName()
    ensures LoadedLine(PrintSection(""), "video") == Parsed(Section("v"))
  {
    StaleIs();
    hide *;
    SectionParsed("", "video");
  }

  lemma StaleIs()
    ensures ReadName("", "video") == "v"
  {
    Literals();
    hide Strip;
    assert Cut("video", 1) == "v" && Lower("v") == "v";
  }

  lemma ReadNameIs(s: string, section: string)
    ensures var n := Until(s, {']'}); ReadName(s, section) == Cleaned(if n == 0 then section else s[..n], |s| + 2)
  {
  }

  lemma NotContinued(text: string, section: string)
    requires text != "" && TrimRight(text) == text && text[|text| - 1] != '\\'
    ensures LoadedLine(text, section) == Parsed(ParseLine(text, section))
  {
    hide TrimRight, ParseLine;
  }

  lemma SectionShape(s: string)
    ensures var line := PrintSection(s);
            |line| == |s| + 2 && line[0] == '[' && line[|line| - 1] == ']'
  {
  }

  lemma SectionTrim(s: string)
    ensures TrimRight(PrintSection(s)) == PrintSection(s) && Strip(PrintSection(s)) == PrintSection(s)
  {
    SectionShape(s);
    StripStripped(PrintSection(s));
  }

  lemma SectionScan(s: string)
    ensures var n := Until(s, {']'});
            ScanSection(PrintSection(s)) == if n == 0 then None else Some(s[..n])
  {
    var (rest, n) := (s + [']'], Until(s, {']'}));
    assert PrintSection(s) == ['['] + rest;
    assert PrintSection(s)[1..] == rest;
    UntilAt(rest, {']'}, n);
    assert rest[..n] == s[..n];
    hide Until, PrintSection;
  }

  lemma SectionName(s: string, section: string)
    requires PrintableSection(s)
    ensures ReadName(s, section) == s
  {
    UntilNone(s, {']'});
    StripStripped(s);
    hide Until, Strip, Stripped;
    assert s[..|s|] == s;
  }

  lemma SectionNameOnly(s: string)
    requires ReadName(s, "") == s && ReadName(s, "x") == s
    ensures PrintableSection(s)
  {
    hide Strip, TrimLeft, TrimRight;
    var n := Until(s, {']'});
    if n == 0 {
      ReadNameStale(s);
    } else {
      StripStripped(s[..n]);
      assert |ReadName(s, "")| <= n;
      assert n == |s| && s[..n] == s;
      UntilNone(s, {']'});
      LowerKeeps(s);
    }
  }

  lemma ReadNameStale(s: string)
    requires Until(s, {']'}) == 0
    ensures |ReadName(s, "")| == 0 && |ReadName(s, "x")| == 1
  {
    StripNothing();
    StripX();
    hide Strip, Until;
  }

  lemma StripX()
    ensures Strip("x") == "x"
  {
    StripStripped("x");
  }

  // ---- Comments behind a value

  /** A value and a comment behind it. */
  function WithComment(v: string, mark: char, comment: string): string {
    v + ([' '] + ([mark] + comment))
  }

  /** A lone quote mark would be closed by nothing and swallow the comment. */
  predicate LoneQuote(v: string) {
    v == ['"'] || v == ['\'']
  }

  lemma CommentStripEmpty(mark: char, comment: string)
    requires mark == ';' || mark == '#'
    ensures Strip([' '] + ([mark] + comment)) == [mark] + TrimRight(comment)
  {
    hide TrimRight, TrimLeft;
    TrimLeftSpaces([' '], [mark] + comment);
    FirstSurvives([mark] + comment);
    TrimRightAfter([mark], comment);
  }

  lemma StripBehind(a: string, comment: string)
    requires a != "" && !IsSpace(a[0]) && !IsSpace(a[|a| - 1])
    ensures Strip(a + comment) == a + TrimRight(comment)
  {
    hide TrimRight, TrimLeft;
    assert (a + comment)[0] == a[0];
    FirstSurvives(a + comment);
    TrimRightAfter(a, comment);
  }

  /** The blanks at both ends of a commented value. */
  lemma CommentStrip(v: string, mark: char, comment: string)
    requires Stripped(v) && (mark == ';' || mark == '#')
    ensures var w := Strip(WithComment(v, mark, comment));
            w == if v == "" then [mark] + TrimRight(comment) else v + ([' '] + ([mark] + TrimRight(comment)))
  {
    hide TrimRight, TrimLeft, Strip;
    if v == "" {
      assert WithComment(v, mark, comment) == [' '] + ([mark] + comment);
      CommentStripEmpty(mark, comment);
    } else {
      var a := v + ([' '] + [mark]);
      assert a[0] == v[0] && a[|a| - 1] == mark;
      StripBehind(a, comment);
      Regroup(v, [mark], comment);
      Regroup(v, [mark], TrimRight(comment));
    }
  }

  lemma Regroup(v: string, m: string, c: string)
    ensures (v + ([' '] + m)) + c == v + ([' '] + (m + c))
  {
  }

  lemma CommentCut(v: string, mark: char, tail: string)
    requires ';' !in v && '#' !in v && (mark == ';' || mark == '#')
    ensures Until([mark] + tail, {';', '#'}) == 0
    ensures Until(v + ([' '] + ([mark] + tail)), {';', '#'}) == |v| + 1
    ensures (v + ([' '] + ([mark] + tail)))[..|v| + 1] == v + [' ']
  {
    var s := v + ([' '] + ([mark] + tail));
    assert s[|v| + 1] == mark && s[|v|] == ' ';
    UntilAt(s, {';', '#'}, |v| + 1);
  }

  lemma CommentNotQuoted(v: string, rest: string)
    requires PrintableValue(v) && v != "" && !LoneQuote(v)
    ensures Quoted(v + rest, '"') == None && Quoted(v + rest, '\'') == None
  {
    var w := v + rest;
    hide Stripped;
    if |v| == 1 {
      assert v == [v[0]];
      assert w[0] == v[0];
    } else {
      assert w[0] == v[0] && w[1] == v[1];
    }
    QuotedIffLooks(w);
  }

  lemma ValueOfCommented(v: string, mark: char, comment: string)
    requires PrintableValue(v) && !LoneQuote(v) && (mark == ';' || mark == '#')
    ensures ValueOf(Strip(WithComment(v, mark, comment))) == v
  {
    hide Quoted, Until, Strip, TrimRight, TrimLeft, Stripped;
    var (w, t) := (Strip(WithComment(v, mark, comment)), TrimRight(comment));
    PrintableFacts(v);
    CommentStrip(v, mark, comment);
    CommentCut(v, mark, t);
    StripNothing();
    if v == "" {
      QuotedIffLooks(w);
      assert w[..0] == "";
    } else {
      CommentNotQuoted(v, [' '] + ([mark] + t));
      StripBlankBehind(v);
    }
  }

  lemma PrintableFacts(v: string)
    requires PrintableValue(v)
    ensures Stripped(v) && ';' !in v && '#' !in v && EmptyQuotes(v) == v
  {
  }

  lemma StripBlankBehind(v: string)
    requires Stripped(v) && v != ""
    ensures Strip(v + [' ']) == v
  {
    hide TrimRight, TrimLeft;
    FirstSurvives(v + [' ']);
    TrimRightSpaces(v, [' ']);
    FirstSurvives(v);
    StripStripped(v);
  }

  /** A comment behind a value changes nothing, for empty values too; the line must not look like
      a section and the value must not be a lone quote mark. */
  lemma CommentDropped(k: string, v: string, mark: char, comment: string, section: string)
    requires PrintableKey(k) && PrintableValue(v) && !LoneQuote(v) && (mark == ';' || mark == '#')
    requires !LooksLikeSection(k, Strip(WithComment(v, mark, comment)))
    ensures ParseLine(TrimRight(PrintEntry(k, WithComment(v, mark, comment))), section) == Value(k, v)
  {
    hide *;
    EntryParsed(k, WithComment(v, mark, comment), section);
    ValueOfCommented(v, mark, comment);
  }
}
