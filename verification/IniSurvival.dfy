/**
 Which dictionaries of one-line strings come back from being dumped and loaded, by counting: the
 dump has at most one non-blank line per key and no more brackets and backslashes than the
 dictionary, and whatever is read as something else than it was printed for loses one of these.
 */
module IniSurvival {
  import opened CType
  import opened Options
  import opened IniLine
  import opened IniFile
  import opened IniRoundTrip
  import opened Dictionaries

  // ---- Counting characters

  function Count(s: string, c: char): nat {
    if s == "" then 0 else (if s[0] == c then 1 else 0) + Count(s[1..], c)
  }

  /** The characters that are counted: no printing but that of a section adds one. */
  predicate Mark(c: char) {
    c == ']' || c == '\\' || c == '\n' || c == '\0'
  }

  lemma {:induction false} CountConcat(a: string, b: string, c: char)
    ensures Count(a + b, c) == Count(a, c) + Count(b, c)
  {
    if a == "" {
      assert a + b == b;
    } else {
      assert (a + b)[1..] == a[1..] + b;
      CountConcat(a[1..], b, c);
    }
  }

  lemma {:induction false} CountIn(s: string, c: char)
    ensures c in s <==> Count(s, c) > 0
  {
    if s != "" {
      CountIn(s[1..], c);
      assert s == [s[0]] + s[1..];
    }
  }

  lemma CountPrefix(s: string, n: nat, c: char)
    requires n <= |s|
    ensures Count(s[..n], c) + Count(s[n..], c) == Count(s, c)
  {
    assert s == s[..n] + s[n..];
    CountConcat(s[..n], s[n..], c);
  }

  lemma CountTrim(s: string, c: char)
    ensures Count(TrimLeft(s), c) <= Count(s, c) && Count(TrimRight(s), c) <= Count(s, c) && Count(Strip(s), c) <= Count(s, c)
  {
    var l := TrimLeft(s);
    CountPrefix(s, |s| - |l|, c);
    CountPrefix(s, |TrimRight(s)|, c);
    CountPrefix(l, |TrimRight(l)|, c);
    hide Count, TrimLeft, TrimRight;
  }

  lemma {:induction false} CountLower(s: string, c: char)
    requires Mark(c)
    ensures Count(Lower(s), c) == Count(s, c)
  {
    if s != "" {
      assert Lower(s)[1..] == Lower(s[1..]);
      CountLower(s[1..], c);
    }
  }

  lemma CountCleaned(raw: string, len: nat, c: char)
    requires Mark(c)
    ensures Count(Cleaned(raw, len), c) <= Count(raw, c)
  {
    var t := Strip(raw);
    CountTrim(raw, c);
    CountLower(Cut(t, len - 1), c);
    if 0 < len - 1 < |t| {
      CountPrefix(t, len - 1, c);
    }
    hide Strip, Lower;
  }

  // ---- What parsing keeps

  lemma ScanKeyCount(line: string, c: char)
    requires ScanKey(line) != None
    ensures var ((raw, w), n) := (ScanKey(line).value, Until(line, {'='}));
            n <= |line| && raw == line[..n] && Count(w, c) <= Count(line[n..], c)
  {
    var n := Until(line, {'='});
    var rest := TrimLeft(line[n..]);
    CountTrim(line[n..], c);
    CountPrefix(rest, 1, c);
    CountTrim(rest[1..], c);
    hide Count, TrimLeft, Until;
  }

  /** The value part of a scan is a piece of what follows the key. */
  predicate PieceOf(line: string, r: Option<(string, string)>, c: char) {
    r != None ==>
      var n := Until(line, {'='});
      n <= |line| && r.value.0 == line[..n] && Count(r.value.1, c) <= Count(line[n..], c)
  }

  lemma QuotedCount(w: string, q: char, c: char)
    requires Quoted(w, q) != None
    ensures Count(Quoted(w, q).value, c) <= Count(w, c)
  {
    CountPrefix(w, 1, c);
    CountPrefix(w[1..], Until(w[1..], {q}), c);
    hide Count, Until;
  }

  lemma ScanQuotedCount(line: string, q: char, c: char)
    ensures PieceOf(line, ScanQuoted(line, q), c)
  {
    if ScanQuoted(line, q) != None {
      QuotedHasKey(line, q);
      var (raw, w) := ScanKey(line).value;
      ScanKeyCount(line, c);
      ScansGiven(line, raw, w, q);
      QuotedCount(w, q, c);
    }
    hide ScanKey, ScanQuoted, Quoted, Count, Until;
  }

  lemma QuotedHasKey(line: string, q: char)
    requires ScanQuoted(line, q) != None
    ensures ScanKey(line) != None
  {
    hide ScanKey, Until;
  }

  lemma ScanPlainCount(line: string, c: char)
    ensures PieceOf(line, ScanPlain(line), c)
  {
    if ScanPlain(line) != None {
      PlainHasKey(line);
      var (raw, w) := ScanKey(line).value;
      ScanKeyCount(line, c);
      ScansGiven(line, raw, w, '"');
      CountPrefix(w, Until(w, {';', '#'}), c);
    }
    hide ScanKey, ScanPlain, Quoted, Count, Until;
  }

  lemma PlainHasKey(line: string)
    requires ScanPlain(line) != None
    ensures ScanKey(line) != None
  {
    hide ScanKey, Until;
  }

  /** The key of the other two formats, whose value is the empty string. */
  lemma ScanKeys(line: string)
    ensures ScanMarks(line) != None ==> Until(line, {'='}) <= |line| && ScanMarks(line).value.0 == line[..Until(line, {'='})]
    ensures ScanEquals(line) != None ==> Until(line, {'='}) <= |line| && ScanEquals(line).value.0 == line[..Until(line, {'='})]
  {
    hide Until;
  }

  lemma CountNothing(c: char)
    ensures Count("", c) == 0
  {
  }

  lemma EmptyQuotesCount(v: string, c: char)
    ensures Count(EmptyQuotes(v), c) <= Count(v, c)
  {
  }

  lemma CleanedPiece(line: string, n: nat, len: nat, w: string, c: char)
    requires Mark(c) && n <= |line| && Count(w, c) <= Count(line[n..], c)
    ensures Count(Cleaned(line[..n], len), c) + Count(w, c) <= Count(line, c)
  {
    CountCleaned(line[..n], len, c);
    CountPrefix(line, n, c);
    hide Cleaned, Count;
  }

  /** Key and value of an entry are made of different parts of the line. */
  lemma KeyValueCount(line: string, c: char)
    requires Mark(c) && KeyValue(line).Value?
    ensures Count(KeyValue(line).key, c) + Count(KeyValue(line).value, c) <= Count(line, c)
  {
    var (n, len) := (Until(line, {'='}), |line|);
    hide Mark, Count, Cleaned, Until, ScanQuoted, ScanPlain, ScanMarks, ScanEquals, EmptyQuotes, Strip;
    CountNothing(c);
    if ScanQuoted(line, '"') != None {
      ScanQuotedCount(line, '"', c);
      CleanedPiece(line, n, len, ScanQuoted(line, '"').value.1, c);
    } else if ScanQuoted(line, '\'') != None {
      ScanQuotedCount(line, '\'', c);
      CleanedPiece(line, n, len, ScanQuoted(line, '\'').value.1, c);
    } else if ScanPlain(line) != None {
      ScanPlainCount(line, c);
      var w := ScanPlain(line).value.1;
      CountTrim(w, c);
      EmptyQuotesCount(Strip(w), c);
      CleanedPiece(line, n, len, EmptyQuotes(Strip(w)), c);
    } else if ScanMarks(line) != None || ScanEquals(line) != None {
      ScanKeys(line);
      CleanedPiece(line, n, len, "", c);
    }
  }

  lemma ParseIs(input: string, section: string)
    ensures var (line, r) := (Strip(input), ParseLine(input, section));
            && (r.Value? ==> r == KeyValue(line))
            && (r.Section? ==> line != "" && line[0] == '[' && line[|line| - 1] == ']')
  {
    hide Strip, Cleaned, ScanSection;
    var line := Strip(input);
    if line != "" && !(line[0] == '[' && line[|line| - 1] == ']') {
      NotSection(input, section);
    }
  }

  lemma ParsedValueCount(input: string, section: string, c: char)
    requires Mark(c) && ParseLine(input, section).Value?
    ensures var r := ParseLine(input, section); Count(r.key, c) + Count(r.value, c) <= Count(input, c)
  {
    hide *;
    ParseIs(input, section);
    KeyValueCount(Strip(input), c);
    CountTrim(input, c);
  }

  /** A section line has a closing bracket, and leaves none in the name. */
  lemma ParsedSection(input: string, section: string)
    requires ParseLine(input, section).Section? && ']' !in section
    ensures Count(input, ']') > 0 && ']' !in ParseLine(input, section).name
  {
    hide *;
    ParseIs(input, section);
    ParsedAsSection(input, section);
    CountTrim(input, ']');
    LastIn(Strip(input));
    CountIn(Strip(input), ']');
    var line := Strip(input);
    var x := ScanSection(line);
    ScannedName(line);
    NoBracket(if x == None then section else x.value, |line|);
  }

  lemma LastIn(s: string)
    requires s != ""
    ensures s[|s| - 1] in s
  {
  }

  lemma ScannedName(line: string)
    ensures ScanSection(line) != None ==> ']' !in ScanSection(line).value
  {
    if line != "" {
      assert forall i | 0 <= i < Until(line[1..], {']'}) :: line[1..][i] != ']';
    }
    hide Until;
  }

  lemma NoBracket(x: string, len: nat)
    requires ']' !in x
    ensures ']' !in Cleaned(x, len)
  {
    MarkBracket();
    hide *;
    CountIn(x, ']');
    CountCleaned(x, len, ']');
    CountIn(Cleaned(x, len), ']');
  }

  lemma MarkBracket()
    ensures Mark(']') && Mark('\\') && Mark('\n') && Mark('\0')
  {
  }

  // ---- Sums over the slots

  function Total(xs: seq<int>): int {
    if xs == [] then 0 else Total(xs[..|xs| - 1]) + xs[|xs| - 1]
  }

  lemma {:induction false} TotalChange(xs: seq<int>, ys: seq<int>, i: nat)
    requires |xs| == |ys| && i < |xs| && forall j | 0 <= j < |xs| && j != i :: xs[j] == ys[j]
    ensures Total(ys) == Total(xs) + ys[i] - xs[i]
  {
    var n := |xs| - 1;
    if i == n {
      assert xs[..n] == ys[..n];
    } else {
      TotalChange(xs[..n], ys[..n], i);
    }
  }

  lemma {:induction false} TotalLess(xs: seq<int>, ys: seq<int>)
    requires |xs| == |ys| && forall j | 0 <= j < |xs| :: xs[j] <= ys[j]
    ensures Total(xs) <= Total(ys)
    ensures forall j | 0 <= j < |xs| && xs[j] < ys[j] :: Total(xs) < Total(ys)
  {
    if xs != [] {
      var n := |xs| - 1;
      TotalLess(xs[..n], ys[..n]);
      assert forall j | 0 <= j < n :: xs[..n][j] == xs[j] && ys[..n][j] == ys[j];
    }
  }

  lemma {:induction false} TotalSum(xs: seq<int>, ys: seq<int>, zs: seq<int>)
    requires |xs| == |ys| == |zs| && forall j | 0 <= j < |xs| :: zs[j] == xs[j] + ys[j]
    ensures Total(zs) == Total(xs) + Total(ys)
  {
    if xs != [] {
      var n := |xs| - 1;
      TotalSum(xs[..n], ys[..n], zs[..n]);
    }
  }

  lemma {:induction false} TotalZero(xs: seq<int>)
    requires forall j | 0 <= j < |xs| :: xs[j] == 0
    ensures Total(xs) == 0
  {
    if xs != [] {
      TotalZero(xs[..|xs| - 1]);
    }
  }

  // ---- Weights

  /** What is counted: keys, together with closing brackets, or backslashes. A dump without sections
      prints whole keys, another one the part behind the section. */
  datatype Measure = Brackets | Slashes(plain: bool)

  function KeyPart(k: string, plain: bool): string {
    if plain then k else KeyOf(k)
  }

  function Weight(ms: Measure, k: string, v: Text): nat {
    match ms
    case Brackets => 3 + Count(k, ']') + Count(Printed(v), ']')
    case Slashes(plain) => Count(KeyPart(k, plain), '\\') + Count(Printed(v), '\\')
  }

  /** What the slots' keys that are in a dictionary weigh there. */
  ghost function Weights(ms: Measure, keys: seq<Text>, d: map<string, Text>): (r: seq<int>)
    ensures |r| == |keys|
  {
    seq(|keys|, i requires 0 <= i < |keys| => SlotWeight(ms, keys[i], d))
  }

  function SlotWeight(ms: Measure, k: Text, d: map<string, Text>): int {
    if k != None && k.value in d then Weight(ms, k.value, d[k.value]) else 0
  }

  ghost function Load(ms: Measure, keys: seq<Text>, d: map<string, Text>): int {
    Total(Weights(ms, keys, d))
  }

  /** An entry more weighs at most its own weight. */
  lemma LoadMore(ms: Measure, keys: seq<Text>, d: map<string, Text>, k: string, v: Text)
    requires DistinctKeys(keys)
    ensures Load(ms, keys, d[k := v]) <= Load(ms, keys, d) + Weight(ms, k, v)
  {
    hide Total, Weight;
    var (xs, ys) := (Weights(ms, keys, d), Weights(ms, keys, d[k := v]));
    if Some(k) in keys {
      var i :| 0 <= i < |keys| && keys[i] == Some(k);
      forall j | 0 <= j < |keys| && j != i
        ensures xs[j] == ys[j]
      {
        OtherSlot(keys, i, j);
      }
      TotalChange(xs, ys, i);
    } else {
      assert forall j | 0 <= j < |keys| :: keys[j] != Some(k);
      assert xs == ys;
    }
  }

  lemma OtherSlot(keys: seq<Text>, i: nat, j: nat)
    requires DistinctKeys(keys) && i < |keys| && j < |keys| && i != j && keys[i] != None
    ensures keys[j] != keys[i]
  {
  }

  lemma LoadNothing(ms: Measure, keys: seq<Text>)
    ensures Load(ms, keys, map[]) == 0
  {
    hide Total;
    TotalZero(Weights(ms, keys, map[]));
  }

  // ---- A state within a budget

  /** What the text kept from a continued line can still become. */
  function Pending(ms: Measure, prefix: string): int {
    match ms
    case Brackets => if prefix == "" then 0 else 3 + Count(prefix, ']')
    case Slashes(_) => Count(prefix, '\\')
  }

  ghost function Spent(ms: Measure, keys: seq<Text>, st: Loader): int {
    Load(ms, keys, st.dict) + Pending(ms, st.prefix)
  }

  predicate NameOk(plain: bool, name: string) {
    if plain then name == "" else IsSection(name)
  }

  /** Keys and brackets are within their budget, and if nothing of it is lost, so are the
      backslashes. */
  ghost predicate Within(plain: bool, keys: seq<Text>, st: Loader, brackets: int, slashes: int) {
    && ']' !in st.section && '\0' !in st.prefix && |st.prefix| < LINE_ROOM
    && Spent(Brackets, keys, st) <= brackets
    && (Spent(Brackets, keys, st) == brackets ==> NameOk(plain, st.section) && Spent(Slashes(plain), keys, st) <= slashes)
  }

  // ---- Reading one line, whatever was kept before

  /** One printed line: nothing when it does not fit the buffer behind the text that was kept. */
  function Step(st: Loader, line: string): Option<Loader> {
    if |st.prefix| + |line| >= LINE_ROOM then None
    else if st.prefix + line == "" then Some(st)
    else Some(TakeText(st, st.prefix + line + "\n"))
  }

  /** What can happen to the text of a line. */
  datatype Fate = Entered(key: string, value: string) | Named | Kept | Dropped

  ghost predicate Fares(f: Fate, st: Loader, text: string, next: Loader) {
    match f
    case Entered(k, v) =>
      && next == st.(prefix := "", dict := st.dict[st.section + ":" + k := Some(v)])
      && (forall c | Mark(c) :: Count(k, c) + Count(v, c) <= Count(text, c))
      && !Continued(text) && !SectionLike(text)
    case Named =>
      && next.prefix == "" && ']' !in next.section && Count(text, ']') > 0
      && next.dict == st.dict[next.section := None]
    case Kept =>
      && next == st.(prefix := next.prefix) && '\0' !in next.prefix && |next.prefix| < |text|
      && Count(next.prefix, ']') <= Count(text, ']') && Count(next.prefix, '\\') < Count(text, '\\')
    case Dropped => next.prefix == "" && next.dict == st.dict && next.section == st.section
  }

  lemma TakeTextNewline(st: Loader, text: string)
    ensures TakeText(st, text + "\n") ==
            if Continued(text) then st.(prefix := TrimRight(text)[..|TrimRight(text)| - 1])
            else Apply(st.(prefix := ""), ParseLine(TrimRight(text), st.section))
  {
    NewlineTrimmed(text, st.section);
    TakeTextOf(st, text + "\n", text);
    hide TrimRight, ParseLine, Apply, TakeText;
  }

  lemma TakeTextOf(st: Loader, long: string, text: string)
    requires LoadedLine(long, st.section) == LoadedLine(text, st.section)
    ensures TakeText(st, long) ==
            if Continued(text) then st.(prefix := TrimRight(text)[..|TrimRight(text)| - 1])
            else Apply(st.(prefix := ""), ParseLine(TrimRight(text), st.section))
  {
    hide TrimRight, ParseLine, Apply;
  }

  lemma KeptText(text: string)
    requires Continued(text) && '\0' !in text
    ensures var p := TrimRight(text)[..|TrimRight(text)| - 1];
            && '\0' !in p && |p| < |text|
            && Count(p, ']') <= Count(text, ']') && Count(p, '\\') < Count(text, '\\')
  {
    hide *;
    var t := TrimRight(text);
    ContinuedIs(text);
    var n := |t| - 1;
    TrimIsPrefix(text);
    CountTrim(text, ']');
    CountTrim(text, '\\');
    CountPrefix(t, n, ']');
    CountPrefix(t, n, '\\');
    LastCounts(t);
  }

  lemma ContinuedIs(text: string)
    requires Continued(text)
    ensures TrimRight(text) != "" && TrimRight(text)[|TrimRight(text)| - 1] == '\\'
  {
    hide TrimRight;
  }

  lemma TrimIsPrefix(text: string)
    ensures |TrimRight(text)| <= |text| && TrimRight(text) == text[..|TrimRight(text)|]
  {
  }

  lemma LastCounts(t: string)
    requires t != "" && t[|t| - 1] == '\\'
    ensures Count(t[|t| - 1..], '\\') == 1
  {
    var e := t[|t| - 1..];
    assert e[1..] == "";
  }

  lemma TextFares(st: Loader, text: string) returns (f: Fate)
    requires '\0' !in text && ']' !in st.section
    ensures Fares(f, st, text, TakeText(st, text + "\n"))
  {
    hide *;
    TakeTextNewline(st, text);
    if Continued(text) {
      KeptFares(st, text);
      f := Kept;
    } else {
      f := ParsedFares(st, text);
    }
  }

  lemma KeptFares(st: Loader, text: string)
    requires Continued(text) && '\0' !in text
    ensures Fares(Kept, st, text, st.(prefix := TrimRight(text)[..|TrimRight(text)| - 1]))
  {
    hide TrimRight, Count;
    KeptText(text);
  }

  lemma ParsedFares(st: Loader, text: string) returns (f: Fate)
    requires !Continued(text) && ']' !in st.section
    ensures Fares(f, st, text, Apply(st.(prefix := ""), ParseLine(TrimRight(text), st.section)))
  {
    hide TrimRight, ParseLine, Count, Continued, SectionLike, Mark;
    match ParseLine(TrimRight(text), st.section)
    case Value(k, v) =>
      ValueFares(text, st.section);
      f := Entered(k, v);
    case Section(name) =>
      NameFares(text, st.section);
      f := Named;
    case _ =>
      f := Dropped;
  }

  lemma ValueFares(text: string, section: string)
    requires ParseLine(TrimRight(text), section).Value?
    ensures var r := ParseLine(TrimRight(text), section);
            forall c | Mark(c) :: Count(r.key, c) + Count(r.value, c) <= Count(text, c)
    ensures !SectionLike(text)
  {
    hide *;
    ValueNotSection(text, section);
    forall c | Mark(c)
      ensures var r := ParseLine(TrimRight(text), section); Count(r.key, c) + Count(r.value, c) <= Count(text, c)
    {
      ParsedValueCount(TrimRight(text), section, c);
      CountTrim(text, c);
    }
  }

  lemma NameFares(text: string, section: string)
    requires ParseLine(TrimRight(text), section).Section? && ']' !in section
    ensures Count(text, ']') > 0 && ']' !in ParseLine(TrimRight(text), section).name
  {
    hide *;
    ParsedSection(TrimRight(text), section);
    CountTrim(text, ']');
  }

  lemma ValueNotSection(text: string, section: string)
    requires ParseLine(TrimRight(text), section).Value?
    ensures !SectionLike(text)
  {
    hide TrimRight, ParseLine, Strip;
    if SectionLike(text) {
      ParsedAsSection(TrimRight(text), section);
    }
  }

  // ---- The load of one line

  lemma {:induction false} ChunkOfLong(line: string, rest: string, room: nat)
    requires '\n' !in line && room <= |line|
    ensures ChunkLen(line + rest, room) == room
  {
    var file := line + rest;
    if room > 0 {
      assert file[1..] == line[1..] + rest;
      assert file[0] == line[0] && line[0] in line;
      ChunkOfLong(line[1..], rest, room - 1);
    }
  }

  lemma LoadsRefused(file: string, st: Loader, n: nat)
    requires |st.prefix| < LINE_ROOM && file != ""
    requires n == ChunkLen(file, LINE_ROOM - |st.prefix|) && n <= |file| && n <= LINE_ROOM - |st.prefix|
    requires LoadChunk(st, file[..n]) == None
    ensures Loads(file, st) == None
  {
    hide ChunkLen, LoadChunk;
  }

  lemma FullChunk(st: Loader, chunk: string)
    requires |st.prefix| < LINE_ROOM && |st.prefix| + |chunk| == LINE_ROOM && '\0' !in st.prefix
    requires OneLine(chunk)
    ensures LoadChunk(st, chunk) == None
  {
    var text := st.prefix + chunk;
    assert '\0' !in text && text[|text| - 1] == chunk[|chunk| - 1];
    assert CText(text) == text;
    hide CText, TakeText;
  }

  lemma ShortChunk(st: Loader, line: string)
    requires |st.prefix| + |line| < LINE_ROOM && '\0' !in st.prefix && OneLine(line)
    ensures LoadChunk(st, line + "\n") == Some(if st.prefix + line == "" then st else TakeText(st, st.prefix + line + "\n"))
  {
    var text := st.prefix + (line + "\n");
    assert '\0' !in text;
    assert CText(text) == text && text == st.prefix + line + "\n";
    hide CText, TakeText;
  }

  /** A line that does not fit aborts the load; any other is a step. */
  lemma LoadsLineStep(line: string, rest: string, st: Loader)
    requires OneLine(line) && '\0' !in st.prefix && |st.prefix| < LINE_ROOM
    ensures Step(st, line) != None ==> |Step(st, line).value.prefix| < LINE_ROOM
    ensures Loads(line + ("\n" + rest), st)
         == if Step(st, line) == None then None else Loads(rest, Step(st, line).value)
  {
    var (file, room) := (line + ("\n" + rest), LINE_ROOM - |st.prefix|);
    hide Loads, LoadChunk, ChunkLen, TakeText;
    if room <= |line| {
      ChunkOfLong(line, "\n" + rest, room);
      assert file[..room] == line[..room];
      FullChunk(st, line[..room]);
      LoadsRefused(file, st, room);
    } else {
      ChunkOfLine(line, rest, room);
      LineCut(line, rest);
      ShortChunk(st, line);
      StepBound(st, line);
      LoadsFirst(file, line + "\n", rest, st, Step(st, line).value);
    }
  }

  lemma StepBound(st: Loader, line: string)
    requires |st.prefix| + |line| < LINE_ROOM
    ensures Step(st, line) != None && |Step(st, line).value.prefix| < LINE_ROOM
  {
    var text := st.prefix + line + "\n";
    assert |TakeText(st, text).prefix| < |text| || TakeText(st, text).prefix == "";
    hide TakeText;
  }

  // ---- What one line costs

  lemma BracketWeight(section: string, k: string, v: string)
    requires ']' !in section
    ensures Weight(Brackets, section + ":" + k, Some(v)) == 3 + Count(k, ']') + Count(v, ']')
  {
    hide *;
    WeightIs(section + ":" + k, Some(v));
    CountIn(section, ']');
    ColonCount(section, k, ']');
  }

  lemma WeightIs(k: string, v: Text)
    ensures Weight(Brackets, k, v) == 3 + Count(k, ']') + Count(if v == None then "" else v.value, ']')
    ensures Weight(Slashes(true), k, v) == Count(k, '\\') + Count(if v == None then "" else v.value, '\\')
    ensures Weight(Slashes(false), k, v) == Count(KeyOf(k), '\\') + Count(if v == None then "" else v.value, '\\')
  {
    hide Count, KeyOf;
  }

  lemma ColonCount(a: string, b: string, c: char)
    requires c != ':'
    ensures Count(a + ":" + b, c) == Count(a, c) + Count(b, c)
  {
    CountConcat(a, ":", c);
    CountConcat(a + ":", b, c);
    CountIn(":", c);
    hide Count;
  }

  lemma SlashWeight(plain: bool, section: string, k: string, v: string)
    requires NameOk(plain, section)
    ensures Weight(Slashes(plain), section + ":" + k, Some(v)) == Count(k, '\\') + Count(v, '\\')
  {
    hide *;
    WeightIs(section + ":" + k, Some(v));
    if plain {
      NoName(section);
      CountNothing('\\');
      ColonCount(section, k, '\\');
    } else {
      NameOkIs(section);
      JoinedKey(section, k);
    }
  }

  lemma NoName(name: string)
    requires NameOk(true, name)
    ensures name == ""
  {
  }

  lemma NameWeight(name: string)
    requires ']' !in name
    ensures Weight(Brackets, name, None) == 3
    ensures IsSection(name) ==> Weight(Slashes(false), name, None) == 0
  {
    CountIn(name, ']');
    CountNothing(']');
    CountNothing('\\');
    hide Count;
  }

  lemma BracketsAfter(keys: seq<Text>, st: Loader, text: string, f: Fate, next: Loader)
    requires DistinctKeys(keys) && ']' !in st.section && Fares(f, st, text, next)
    ensures ']' !in next.section && '\0' !in next.prefix
    ensures Spent(Brackets, keys, next) <= Load(Brackets, keys, st.dict) + 3 + Count(text, ']')
    ensures f.Named? || f.Dropped? ==> Spent(Brackets, keys, next) < Load(Brackets, keys, st.dict) + 3 + Count(text, ']')
  {
    MarkBracket();
    hide Mark, Load, Weight, Count, Continued, SectionLike, DistinctKeys;
    match f
    case Entered(k, v) =>
      BracketWeight(st.section, k, v);
      LoadMore(Brackets, keys, st.dict, st.section + ":" + k, Some(v));
    case Named =>
      NameWeight(next.section);
      LoadMore(Brackets, keys, st.dict, next.section, None);
    case Kept =>
    case Dropped =>
  }

  lemma SlashesAfter(plain: bool, keys: seq<Text>, st: Loader, text: string, f: Fate, next: Loader)
    requires DistinctKeys(keys) && NameOk(plain, st.section) && Fares(f, st, text, next) && !f.Named? && !f.Dropped?
    ensures NameOk(plain, next.section)
    ensures Spent(Slashes(plain), keys, next)
         <= Load(Slashes(plain), keys, st.dict) + Count(text, '\\') - if f.Kept? then 1 else 0
  {
    MarkBracket();
    CountNothing('\\');
    hide Mark, Load, Weight, Count, Continued, SectionLike, DistinctKeys;
    match f
    case Entered(k, v) =>
      SlashWeight(plain, st.section, k, v);
      LoadMore(Slashes(plain), keys, st.dict, st.section + ":" + k, Some(v));
    case Kept =>
  }

  lemma StepFares(st: Loader, line: string) returns (f: Fate)
    requires OneLine(line) && '\0' !in st.prefix && ']' !in st.section && st.prefix + line != "" && Step(st, line) != None
    ensures Fares(f, st, st.prefix + line, Step(st, line).value) && |Step(st, line).value.prefix| < LINE_ROOM
  {
    var text := st.prefix + line;
    assert '\0' !in text;
    StepBound(st, line);
    f := TextFares(st, text);
    hide TakeText, Fares;
  }

  lemma SpentIs(ms: Measure, keys: seq<Text>, st: Loader)
    ensures Spent(ms, keys, st) == Load(ms, keys, st.dict) + Pending(ms, st.prefix)
    ensures Pending(ms, "") == 0
    ensures st.prefix != "" ==> Pending(Brackets, st.prefix) == 3 + Count(st.prefix, ']')
    ensures ms.Slashes? ==> Pending(ms, st.prefix) == Count(st.prefix, '\\')
  {
    CountNothing('\\');
    hide Load, Count;
  }

  lemma WithinIs(plain: bool, keys: seq<Text>, st: Loader, b1: int, b2: int)
    ensures Within(plain, keys, st, b1, b2) <==>
              && ']' !in st.section && '\0' !in st.prefix && |st.prefix| < LINE_ROOM
              && Spent(Brackets, keys, st) <= b1
              && (Spent(Brackets, keys, st) == b1 ==> NameOk(plain, st.section) && Spent(Slashes(plain), keys, st) <= b2)
  {
    hide Spent, NameOk;
  }

  /** An entry line costs one key, its brackets and its backslashes, and one backslash less when it
      is read as something else. */
  lemma EntryStep(plain: bool, keys: seq<Text>, st: Loader, line: string, b1: int, b2: int)
    requires DistinctKeys(keys) && Within(plain, keys, st, b1, b2) && OneLine(line) && line != "" && Step(st, line) != None
    ensures Within(plain, keys, Step(st, line).value, b1 + 3 + Count(line, ']'),
                   b2 + Count(line, '\\') - if EntryLike(line) then 0 else 1)
  {
    hide *;
    StepShort(st, line);
    var next := Step(st, line).value;
    WithinIs(plain, keys, st, b1, b2);
    var f := EntryBrackets(keys, st, line);
    if Spent(Brackets, keys, next) == Spent(Brackets, keys, st) + 3 + Count(line, ']') == b1 + 3 + Count(line, ']') {
      EntrySlashes(plain, keys, st, line, f);
    }
    WithinIs(plain, keys, next, b1 + 3 + Count(line, ']'), b2 + Count(line, '\\') - if EntryLike(line) then 0 else 1);
  }

  lemma EntryBrackets(keys: seq<Text>, st: Loader, line: string) returns (f: Fate)
    requires DistinctKeys(keys) && OneLine(line) && line != "" && Step(st, line) != None
    requires ']' !in st.section && '\0' !in st.prefix
    ensures var (next, more) := (Step(st, line).value, 3 + Count(line, ']'));
            && Fares(f, st, st.prefix + line, next)
            && ']' !in next.section && '\0' !in next.prefix && |next.prefix| < LINE_ROOM
            && Spent(Brackets, keys, next) <= Spent(Brackets, keys, st) + more
            && (Spent(Brackets, keys, next) == Spent(Brackets, keys, st) + more ==> st.prefix == "" && !f.Named? && !f.Dropped?)
  {
    hide *;
    var next := Step(st, line).value;
    f := StepFares(st, line);
    BracketsAfter(keys, st, st.prefix + line, f, next);
    CountConcat(st.prefix, line, ']');
    SpentIs(Brackets, keys, st);
    CountNothing(']');
  }

  lemma EntrySlashes(plain: bool, keys: seq<Text>, st: Loader, line: string, f: Fate)
    requires DistinctKeys(keys) && NameOk(plain, st.section) && OneLine(line) && |line| < LINE_ROOM
    requires Step(st, line) != None && Fares(f, st, st.prefix + line, Step(st, line).value) && !f.Named? && !f.Dropped?
    requires st.prefix == ""
    ensures var next := Step(st, line).value;
            && NameOk(plain, next.section)
            && Spent(Slashes(plain), keys, next)
               <= Spent(Slashes(plain), keys, st) + Count(line, '\\') - if EntryLike(line) then 0 else 1
  {
    hide *;
    var next := Step(st, line).value;
    assert st.prefix + line == line;
    SpentIs(Slashes(plain), keys, st);
    SlashesAfter(plain, keys, st, line, f, next);
    EnteredLike(f, st, line, next);
  }

  lemma StepShort(st: Loader, line: string)
    requires Step(st, line) != None
    ensures |line| < LINE_ROOM
  {
  }

  lemma EnteredLike(f: Fate, st: Loader, line: string, next: Loader)
    requires Fares(f, st, line, next) && OneLine(line) && |line| < LINE_ROOM
    ensures f.Entered? ==> EntryLike(line)
  {
    hide Continued, SectionLike, OneLine, Mark, Count;
  }

  /** A blank line costs nothing. */
  lemma BlankStep(plain: bool, keys: seq<Text>, st: Loader, b1: int, b2: int)
    requires DistinctKeys(keys) && Within(plain, keys, st, b1, b2)
    ensures Step(st, "") != None && Within(plain, keys, Step(st, "").value, b1, b2)
  {
    hide *;
    BlankIs(st);
    WithinIs(plain, keys, st, b1, b2);
    var next := Step(st, "").value;
    if st.prefix != "" {
      var f := StepFares(st, "");
      assert st.prefix + "" == st.prefix;
      SpentIs(Brackets, keys, st);
      SpentIs(Slashes(plain), keys, st);
      BracketsAfter(keys, st, st.prefix, f, next);
      if !f.Named? && !f.Dropped? && Spent(Brackets, keys, st) == b1 {
        SlashesAfter(plain, keys, st, st.prefix, f, next);
      }
    }
    WithinIs(plain, keys, next, b1, b2);
  }

  lemma BlankIs(st: Loader)
    ensures OneLine("")
    ensures |st.prefix| < LINE_ROOM ==> Step(st, "") != None
    ensures st.prefix == "" ==> Step(st, "") == Some(st)
  {
    assert st.prefix + "" == st.prefix;
    hide TakeText;
  }

  lemma CountSection(s: string)
    ensures Count(PrintSection(s), ']') == Count(s, ']') + 1
  {
    CountConcat("[", s, ']');
    CountConcat("[" + s, "]", ']');
    assert Count("[", ']') == Count("", ']') && Count("]", ']') == 1 + Count("", ']');
    hide Count;
  }

  /** A section line that is read on its own. */
  lemma HeadAlone(s: string, st: Loader)
    requires st.prefix == "" && OneLine(s) && Step(st, PrintSection(s)) != None
    ensures Step(st, PrintSection(s)).value == Apply(st, Section(ReadName(s, st.section)))
  {
    var line := PrintSection(s);
    assert "" + line == line && line != "";
    SectionParsed(s, st.section);
    hide ReadName, LoadedLine;
    ReadPrefix(line, st);
  }

  lemma PrintsOneLine(s: string)
    requires OneLine(s)
    ensures OneLine(PrintSection(s)) && PrintSection(s) != ""
  {
  }

  lemma SameSection(st: Loader, name: string)
    ensures var r := Apply(st, Section(name)); r.prefix == st.prefix && r.section == name && r.dict == st.dict[name := None]
  {
  }

  /** A section line costs one key and the brackets of its name. */
  lemma HeadStep(keys: seq<Text>, st: Loader, s: string, b1: int, b2: int)
    requires DistinctKeys(keys) && Within(false, keys, st, b1, b2) && OneLine(s) && IsSection(s)
    requires Step(st, PrintSection(s)) != None
    ensures Within(false, keys, Step(st, PrintSection(s)).value, b1 + 3 + Count(s, ']'), b2)
  {
    hide *;
    var (line, next) := (PrintSection(s), Step(st, PrintSection(s)).value);
    PrintsOneLine(s);
    CountSection(s);
    WithinIs(false, keys, st, b1, b2);
    SpentIs(Brackets, keys, st);
    SpentIs(Brackets, keys, next);
    var f := StepFares(st, line);
    BracketsAfter(keys, st, st.prefix + line, f, next);
    CountConcat(st.prefix, line, ']');
    if st.prefix == "" {
      HeadBrackets(keys, st, s);
      if Spent(Brackets, keys, st) == b1 {
        HeadSlashes(keys, st, s);
      }
    }
    WithinIs(false, keys, next, b1 + 3 + Count(s, ']'), b2);
  }

  lemma HeadBrackets(keys: seq<Text>, st: Loader, s: string)
    requires DistinctKeys(keys) && OneLine(s) && st.prefix == "" && Step(st, PrintSection(s)) != None
    requires ']' !in Step(st, PrintSection(s)).value.section
    ensures Spent(Brackets, keys, Step(st, PrintSection(s)).value) <= Spent(Brackets, keys, st) + 3
  {
    hide *;
    var (n, next) := (ReadName(s, st.section), Step(st, PrintSection(s)).value);
    HeadAlone(s, st);
    SameSection(st, n);
    NameWeight(n);
    LoadMore(Brackets, keys, st.dict, n, None);
    SpentIs(Brackets, keys, st);
    SpentIs(Brackets, keys, next);
  }

  lemma HeadSlashes(keys: seq<Text>, st: Loader, s: string)
    requires DistinctKeys(keys) && OneLine(s) && IsSection(s) && st.prefix == "" && Step(st, PrintSection(s)) != None
    requires NameOk(false, st.section) && ']' !in st.section && ']' !in Step(st, PrintSection(s)).value.section
    ensures var next := Step(st, PrintSection(s)).value;
            NameOk(false, next.section) && Spent(Slashes(false), keys, next) <= Spent(Slashes(false), keys, st)
  {
    NameOkIs(st.section);
    hide *;
    var (n, next) := (ReadName(s, st.section), Step(st, PrintSection(s)).value);
    HeadAlone(s, st);
    SameSection(st, n);
    HeadName(s, st.section);
    NameOkIs(n);
    NameWeight(n);
    LoadMore(Slashes(false), keys, st.dict, n, None);
    SpentIs(Slashes(false), keys, st);
    SpentIs(Slashes(false), keys, next);
  }

  lemma NameOkIs(name: string)
    ensures NameOk(false, name) == IsSection(name)
  {
    hide IsSection;
  }

  lemma HeadName(s: string, cur: string)
    requires IsSection(s) && IsSection(cur) && ']' !in cur
    ensures IsSection(ReadName(s, cur))
  {
    ReadNameShape(s, cur, false);
    NameIsSection(ReadName(s, cur), false);
    hide ReadName;
  }

  // ---- The lines of a dump

  datatype Line = Blank | Head(name: string) | Entry(text: string)

  function LineText(l: Line): string {
    match l
    case Blank => ""
    case Head(s) => PrintSection(s)
    case Entry(t) => t
  }

  function Joined(ls: seq<Line>): string {
    if ls == [] then "" else LineText(ls[0]) + ("\n" + Joined(ls[1..]))
  }

  lemma {:induction false} JoinedConcat(a: seq<Line>, b: seq<Line>)
    ensures Joined(a + b) == Joined(a) + Joined(b)
  {
    hide LineText;
    if a == [] {
      assert a + b == b && "" + Joined(b) == Joined(b);
    } else {
      assert (a + b)[1..] == a[1..] + b;
      JoinedConcat(a[1..], b);
      Parts(LineText(a[0]), Joined(a[1..]), Joined(b));
    }
  }

  lemma Parts(t: string, a: string, b: string)
    ensures t + ("\n" + (a + b)) == (t + ("\n" + a)) + b
  {
  }

  predicate Printable1(l: Line) {
    match l
    case Blank => true
    case Head(s) => OneLine(s) && IsSection(s)
    case Entry(t) => OneLine(t) && t != ""
  }

  /** Reading a list of lines. */
  function Run(ls: seq<Line>, st: Loader): Option<Loader>
    decreases |ls|
  {
    if ls == [] then Some(st)
    else
      var next := Step(st, LineText(ls[0]));
      if next == None then None else Run(ls[1..], next.value)
  }

  function LineCost(ms: Measure, l: Line): int {
    match l
    case Blank => 0
    case Head(s) => if ms.Brackets? then 3 + Count(s, ']') else 0
    case Entry(t) => if ms.Brackets? then 3 + Count(t, ']') else Count(t, '\\') - if EntryLike(t) then 0 else 1
  }

  function Cost(ms: Measure, ls: seq<Line>): int {
    if ls == [] then 0 else LineCost(ms, ls[0]) + Cost(ms, ls[1..])
  }

  lemma {:induction false} CostConcat(ms: Measure, a: seq<Line>, b: seq<Line>)
    ensures Cost(ms, a + b) == Cost(ms, a) + Cost(ms, b)
  {
    hide LineCost;
    if a == [] {
      assert a + b == b;
    } else {
      assert (a + b)[1..] == a[1..] + b;
      CostConcat(ms, a[1..], b);
    }
  }

  lemma LineOneLine(l: Line)
    requires Printable1(l)
    ensures OneLine(LineText(l))
  {
  }

  lemma StepNoNul(st: Loader, line: string)
    requires OneLine(line) && '\0' !in st.prefix && Step(st, line) != None && |st.prefix| < LINE_ROOM
    ensures '\0' !in Step(st, line).value.prefix && |Step(st, line).value.prefix| < LINE_ROOM
  {
    if st.prefix + line != "" {
      var text := st.prefix + line;
      assert '\0' !in text;
      StepBound(st, line);
      TakeTextNewline(st, text);
      if Continued(text) {
        KeptText(text);
      } else {
        ApplyPrefix(st.(prefix := ""), ParseLine(TrimRight(text), st.section));
      }
    }
    hide TakeText, ParseLine, TrimRight, Apply, Continued, Count;
  }

  /** The load of a dump is the reading of its lines. */
  lemma {:induction false} RunIsLoad(ls: seq<Line>, st: Loader)
    requires '\0' !in st.prefix && |st.prefix| < LINE_ROOM && forall l | l in ls :: Printable1(l)
    ensures Loads(Joined(ls), st) == Run(ls, st)
    decreases |ls|
  {
    hide Loads, Step, LineText, Printable1, OneLine;
    if ls == [] {
      LoadsEnd(st);
    } else {
      var line := LineText(ls[0]);
      LineOneLine(ls[0]);
      LoadsLineStep(line, Joined(ls[1..]), st);
      if Step(st, line) != None {
        StepNoNul(st, line);
        RunIsLoad(ls[1..], Step(st, line).value);
      }
    }
  }

  lemma LoadsEnd(st: Loader)
    requires |st.prefix| < LINE_ROOM
    ensures Loads("", st) == Some(st)
  {
  }

  lemma LineStep(plain: bool, keys: seq<Text>, st: Loader, l: Line, b1: int, b2: int)
    requires DistinctKeys(keys) && Within(plain, keys, st, b1, b2) && Printable1(l) && Step(st, LineText(l)) != None
    requires plain ==> !l.Head?
    ensures Within(plain, keys, Step(st, LineText(l)).value, b1 + LineCost(Brackets, l), b2 + LineCost(Slashes(plain), l))
  {
    hide Within, Step, PrintSection, EntryLike, Count, OneLine, IsSection, DistinctKeys;
    match l
    case Blank => BlankStep(plain, keys, st, b1, b2);
    case Head(s) => HeadStep(keys, st, s, b1, b2);
    case Entry(t) => EntryStep(plain, keys, st, t, b1, b2);
  }

  /** Reading lines stays within their cost. */
  lemma {:induction false} RunWithin(plain: bool, keys: seq<Text>, ls: seq<Line>, st: Loader, b1: int, b2: int)
    requires DistinctKeys(keys) && Within(plain, keys, st, b1, b2) && Run(ls, st) != None
    requires forall l | l in ls :: Printable1(l) && (plain ==> !l.Head?)
    ensures Within(plain, keys, Run(ls, st).value, b1 + Cost(Brackets, ls), b2 + Cost(Slashes(plain), ls))
    decreases |ls|
  {
    hide Within, Step, LineText, Printable1, LineCost, DistinctKeys;
    if ls != [] {
      var l := ls[0];
      LineStep(plain, keys, st, l, b1, b2);
      RunWithin(plain, keys, ls[1..], Step(st, LineText(l)).value, b1 + LineCost(Brackets, l), b2 + LineCost(Slashes(plain), l));
    }
  }

  lemma StartWithin(plain: bool, keys: seq<Text>)
    ensures Within(plain, keys, START, 0, 0)
  {
    LoadNothing(Brackets, keys);
    LoadNothing(Slashes(plain), keys);
    CountNothing('\\');
    hide Load, Count;
  }

  /** A dictionary that comes back from these lines costs no more than they do: not more keys and
      brackets, and if not fewer, not more backslashes. */
  lemma LoadedWithin(plain: bool, keys: seq<Text>, ls: seq<Line>, m: map<string, Text>)
    requires DistinctKeys(keys) && LoadText(Joined(ls)) == Some(m)
    requires forall l | l in ls :: Printable1(l) && (plain ==> !l.Head?)
    ensures Load(Brackets, keys, m) <= Cost(Brackets, ls)
    ensures Load(Brackets, keys, m) == Cost(Brackets, ls) ==> Load(Slashes(plain), keys, m) <= Cost(Slashes(plain), ls)
  {
    hide *;
    StartFacts();
    RunIsLoad(ls, START);
    LoadTextParts(Joined(ls));
    StartWithin(plain, keys);
    RunWithin(plain, keys, ls, START, 0, 0);
    var end := Run(ls, START).value;
    WithinIs(plain, keys, end, 0 + Cost(Brackets, ls), 0 + Cost(Slashes(plain), ls));
    SpentIs(Brackets, keys, end);
    SpentIs(Slashes(plain), keys, end);
    CountPending(end.prefix);
  }

  lemma StartFacts()
    ensures START.prefix == "" && |START.prefix| < LINE_ROOM
  {
  }

  lemma LoadTextParts(text: string)
    ensures LoadText(text) != None ==> Loads(text, START) != None && Loads(text, START).value.dict == LoadText(text).value
  {
    hide Loads;
  }

  lemma CountPending(prefix: string)
    ensures forall ms :: Pending(ms, prefix) >= 0
  {
    hide Count;
  }

  // ---- Lines that fit

  /** A list of lines that is read to its end has only lines that fit the buffer. */
  lemma {:induction false} RunFits(ls: seq<Line>, st: Loader)
    requires Run(ls, st) != None
    ensures forall l | l in ls :: |LineText(l)| < LINE_ROOM
    decreases |ls|
  {
    hide LineText;
    if ls != [] {
      StepShort(st, LineText(ls[0]));
      RunFits(ls[1..], Step(st, LineText(ls[0])).value);
      assert forall l | l in ls :: l == ls[0] || l in ls[1..];
    }
    hide Step;
  }

  // ---- What a slot's line costs

  /** The strings of the dictionary are single lines. */
  ghost predicate OneLines(keys: seq<Text>, vals: seq<Text>) {
    && |keys| == |vals| && DistinctKeys(keys)
    && (forall i | 0 <= i < |keys| && keys[i] != None :: OneLine(keys[i].value) && OneLine(Printed(vals[i])))
  }

  lemma CountSpaces(n: nat, c: char)
    requires Mark(c)
    ensures Count(Spaces(n), c) == 0
  {
    CountIn(Spaces(n), c);
  }

  lemma CountPadded(k: string, pad: nat, v: string, c: char)
    requires Mark(c)
    ensures Count(PrintPadded(k, pad, v), c) == Count(k, c) + Count(v, c)
  {
    CountSpaces(pad, c);
    CountConcat(k, Spaces(pad), c);
    CountConcat(k + Spaces(pad), " = ", c);
    CountConcat(k + Spaces(pad) + " = ", v, c);
    CountIn(" = ", c);
    hide Count;
  }

  lemma CountEntry(k: string, v: string, c: char)
    requires Mark(c)
    ensures Count(PrintEntry(k, v), c) == Count(k, c) + Count(v, c)
  {
    hide *;
    EntryIs(k, v);
    CountPadded(k, PadOf(k), v, c);
  }

  lemma CountPlain(k: string, v: Text, c: char)
    requires Mark(c)
    ensures Count(PlainEntry(k, v), c) == Count(k, c) + Count(Printed(v), c)
  {
    hide *;
    CountPadded(k, 0, PlainText(v), c);
    PlainIs(k, v);
    PlainTextCount(v, c);
  }

  lemma PlainTextCount(v: Text, c: char)
    requires Mark(c)
    ensures Count(PlainText(v), c) == Count(Printed(v), c)
  {
    CountIn("(null)", c);
    CountIn("", c);
    hide Count;
  }

  lemma CountKeyOf(k: string, c: char)
    ensures Count(KeyOf(k), c) <= Count(k, c)
  {
    if IsSection(k) {
      CountNothing(c);
    } else {
      BelongsTo(k);
      CountPrefix(k, Until(k, {':'}) + 1, c);
    }
    hide Count, Until;
  }

  /** The line that is printed for a slot. */
  function SlotLine(k: string, v: Text, plain: bool): Line {
    if plain then Entry(PlainEntry(k, v))
    else if IsSection(k) then Head(k)
    else Entry(PrintEntry(KeyOf(k), Printed(v)))
  }

  function LikeCost(l: Line): int {
    if l.Entry? && !EntryLike(l.text) then 1 else 0
  }

  lemma EntryCosts(t: string)
    ensures LineCost(Brackets, Entry(t)) == 3 + Count(t, ']')
    ensures forall plain :: LineCost(Slashes(plain), Entry(t)) == Count(t, '\\') - LikeCost(Entry(t))
  {
    hide Count, EntryLike;
  }

  lemma HeadCosts(s: string)
    ensures LineCost(Brackets, Head(s)) == 3 + Count(s, ']') && LikeCost(Head(s)) == 0
    ensures forall plain :: LineCost(Slashes(plain), Head(s)) == 0
  {
    hide Count;
  }

  /** The line costs at most what the slot weighs, and less when it is read as something else. */
  lemma SlotCost(k: string, v: Text, plain: bool)
    ensures 0 < LineCost(Brackets, SlotLine(k, v, plain)) <= Weight(Brackets, k, v)
    ensures LineCost(Slashes(plain), SlotLine(k, v, plain)) <= Weight(Slashes(plain), k, v) - LikeCost(SlotLine(k, v, plain))
  {
    MarkBracket();
    if plain {
      CountPlain(k, v, ']');
      CountPlain(k, v, '\\');
      EntryCosts(PlainEntry(k, v));
    } else if IsSection(k) {
      HeadCosts(k);
    } else {
      CountEntry(KeyOf(k), Printed(v), ']');
      CountEntry(KeyOf(k), Printed(v), '\\');
      CountKeyOf(k, ']');
      EntryCosts(PrintEntry(KeyOf(k), Printed(v)));
    }
    hide Count, PrintEntry, PlainEntry, EntryLike, LineCost, LikeCost, Mark, KeyOf, IsSection;
  }

  lemma SlotPrintable(keys: seq<Text>, vals: seq<Text>, i: nat, plain: bool)
    requires OneLines(keys, vals) && i < |keys| && keys[i] != None
    ensures Printable1(SlotLine(keys[i].value, vals[i], plain))
  {
    var (k, v) := (keys[i].value, vals[i]);
    assert OneLine(k) && OneLine(Printed(v));
    if plain {
      PaddedOneLine(k, 0, PlainText(v));
      PlainIs(k, v);
    } else if !IsSection(k) {
      OneLineParts(k);
      EntryFacts(KeyOf(k), Printed(v));
    }
    hide PrintEntry, PlainEntry, PrintPadded, OneLine, KeyOf, IsSection;
  }

  /** What the shown slots cost. */
  ghost function Costs(ms: Measure, keys: seq<Text>, vals: seq<Text>, plain: bool, shown: set<string>): (r: seq<int>)
    requires |keys| == |vals|
    ensures |r| == |keys|
  {
    seq(|keys|, i requires 0 <= i < |keys| =>
      if keys[i] != None && keys[i].value in shown then LineCost(ms, SlotLine(keys[i].value, vals[i], plain)) else 0)
  }

  /** If the shown slots pay for the whole dictionary, all slots are shown, and all lines are read
      as what they are printed for. */
  lemma Balance(keys: seq<Text>, vals: seq<Text>, plain: bool, shown: set<string>)
    requires |keys| == |vals| && DistinctKeys(keys)
    requires var m := MapOf(keys, vals);
             && Load(Brackets, keys, m) <= Total(Costs(Brackets, keys, vals, plain, shown))
             && (Load(Brackets, keys, m) == Total(Costs(Brackets, keys, vals, plain, shown)) ==>
                   Load(Slashes(plain), keys, m) <= Total(Costs(Slashes(plain), keys, vals, plain, shown)))
    ensures forall i | 0 <= i < |keys| && keys[i] != None ::
              keys[i].value in shown && LikeCost(SlotLine(keys[i].value, vals[i], plain)) == 0
  {
    hide *;
    SlotsOf(keys, vals);
    BalanceBrackets(keys, vals, plain, shown);
    BalanceSlashes(keys, vals, plain, shown);
  }

  lemma WeightAt(ms: Measure, keys: seq<Text>, vals: seq<Text>, i: nat)
    requires |keys| == |vals| && DistinctKeys(keys) && i < |keys|
    ensures Weights(ms, keys, MapOf(keys, vals))[i] == if keys[i] == None then 0 else Weight(ms, keys[i].value, vals[i])
  {
    SlotsOf(keys, vals);
    hide MapOf, Weight;
  }

  lemma BalanceBrackets(keys: seq<Text>, vals: seq<Text>, plain: bool, shown: set<string>)
    requires |keys| == |vals| && DistinctKeys(keys)
    ensures Total(Costs(Brackets, keys, vals, plain, shown)) <= Load(Brackets, keys, MapOf(keys, vals))
    ensures forall i | 0 <= i < |keys| && keys[i] != None && keys[i].value !in shown ::
              Total(Costs(Brackets, keys, vals, plain, shown)) < Load(Brackets, keys, MapOf(keys, vals))
  {
    hide Total, Weight, LineCost, SlotLine, MapOf, DistinctKeys, Weights;
    var (bs, ws) := (Costs(Brackets, keys, vals, plain, shown), Weights(Brackets, keys, MapOf(keys, vals)));
    WeightsLength(Brackets, keys, MapOf(keys, vals));
    forall i | 0 <= i < |keys|
      ensures bs[i] <= ws[i] && (keys[i] != None && keys[i].value !in shown ==> bs[i] < ws[i])
    {
      WeightAt(Brackets, keys, vals, i);
      if keys[i] != None {
        SlotCost(keys[i].value, vals[i], plain);
      }
    }
    TotalLess(bs, ws);
  }

  lemma WeightsLength(ms: Measure, keys: seq<Text>, m: map<string, Text>)
    ensures |Weights(ms, keys, m)| == |keys|
  {
    hide SlotWeight;
  }

  lemma BalanceSlashes(keys: seq<Text>, vals: seq<Text>, plain: bool, shown: set<string>)
    requires |keys| == |vals| && DistinctKeys(keys)
    ensures forall i | 0 <= i < |keys| && keys[i] != None && keys[i].value in shown
                       && LikeCost(SlotLine(keys[i].value, vals[i], plain)) != 0 ::
              Total(Costs(Slashes(plain), keys, vals, plain, shown)) < Load(Slashes(plain), keys, MapOf(keys, vals))
  {
    hide Total, Weight, LineCost, SlotLine, MapOf, DistinctKeys, Weights, LikeCost;
    var (cs, xs) := (Costs(Slashes(plain), keys, vals, plain, shown), Weights(Slashes(plain), keys, MapOf(keys, vals)));
    WeightsLength(Slashes(plain), keys, MapOf(keys, vals));
    forall i | 0 <= i < |keys|
      ensures cs[i] <= xs[i]
      ensures keys[i] != None && keys[i].value in shown && LikeCost(SlotLine(keys[i].value, vals[i], plain)) != 0 ==>
                cs[i] < xs[i]
    {
      WeightAt(Slashes(plain), keys, vals, i);
      if keys[i] != None {
        SlotCost(keys[i].value, vals[i], plain);
        LikeCostBound(SlotLine(keys[i].value, vals[i], plain));
      }
    }
    TotalLess(cs, xs);
  }

  lemma LikeCostBound(l: Line)
    ensures 0 <= LikeCost(l) <= 1
  {
    hide EntryLike;
  }

  // ---- The dump of a dictionary with sections

  function EntryLinesFrom(keys: seq<Text>, vals: seq<Text>, s: string, j: nat): seq<Line>
    requires |keys| == |vals| && j <= |keys|
    decreases |keys| - j
  {
    if j == |keys| then []
    else if keys[j] != None && Belongs(keys[j].value, s) then
      [Entry(PrintEntry(keys[j].value[|s| + 1..], Printed(vals[j])))] + EntryLinesFrom(keys, vals, s, j + 1)
    else EntryLinesFrom(keys, vals, s, j + 1)
  }

  function SectionLines(keys: seq<Text>, vals: seq<Text>, s: string): seq<Line>
    requires |keys| == |vals|
  {
    if Found(keys, s) then [Blank, Head(s)] + (EntryLinesFrom(keys, vals, s, 0) + [Blank]) else []
  }

  function AllLines(keys: seq<Text>, vals: seq<Text>, secs: seq<string>): seq<Line>
    requires |keys| == |vals|
  {
    if secs == [] then [Blank] else SectionLines(keys, vals, secs[0]) + AllLines(keys, vals, secs[1..])
  }

  lemma JoinedOne(l: Line, rest: seq<Line>)
    ensures Joined([l] + rest) == LineText(l) + ("\n" + Joined(rest))
  {
    assert ([l] + rest)[1..] == rest;
    hide LineText;
  }

  lemma JoinedBlank(rest: seq<Line>)
    ensures Joined([Blank] + rest) == "\n" + Joined(rest) && Joined([Blank]) == "\n" && Joined([]) == ""
  {
    JoinedOne(Blank, rest);
    JoinedOne(Blank, []);
    assert [Blank] + [] == [Blank];
    assert "" + ("\n" + Joined(rest)) == "\n" + Joined(rest);
    assert "" + ("\n" + "") == "\n";
  }

  lemma {:induction false} EntriesJoined(keys: seq<Text>, vals: seq<Text>, s: string, j: nat)
    requires |keys| == |vals| && j <= |keys|
    ensures Joined(EntryLinesFrom(keys, vals, s, j)) == EntriesFrom(keys, vals, s, j)
    decreases |keys| - j
  {
    hide Joined, Belongs, PrintEntry;
    JoinedBlank([]);
    if j < |keys| {
      EntriesJoined(keys, vals, s, j + 1);
      if keys[j] != None && Belongs(keys[j].value, s) {
        BelongsLength(keys[j].value, s);
        JoinedOne(Entry(PrintEntry(keys[j].value[|s| + 1..], Printed(vals[j]))), EntryLinesFrom(keys, vals, s, j + 1));
        EntryLineIs(keys[j].value, s, vals[j], EntriesFrom(keys, vals, s, j + 1));
      }
    }
  }

  lemma SectionJoined(keys: seq<Text>, vals: seq<Text>, s: string)
    requires |keys| == |vals|
    ensures Joined(SectionLines(keys, vals, s)) == SectionText(keys, vals, s)
  {
    hide Joined, EntryLinesFrom, EntriesFrom, Lower, Cut, PrintSection;
    JoinedBlank([]);
    if Found(keys, s) {
      var es := EntryLinesFrom(keys, vals, s, 0);
      EntriesJoined(keys, vals, s, 0);
      JoinedConcat(es, [Blank]);
      assert [Blank, Head(s)] + (es + [Blank]) == [Blank] + ([Head(s)] + (es + [Blank]));
      JoinedBlank([Head(s)] + (es + [Blank]));
      JoinedOne(Head(s), es + [Blank]);
      HeadText(PrintSection(s), EntriesFrom(keys, vals, s, 0));
    }
  }

  lemma HeadText(p: string, e: string)
    ensures "\n" + (p + ("\n" + (e + "\n"))) == "\n" + (p + "\n" + (e + "\n"))
  {
  }

  lemma {:induction false} AllJoined(keys: seq<Text>, vals: seq<Text>, secs: seq<string>)
    requires |keys| == |vals|
    ensures Joined(AllLines(keys, vals, secs)) == SectionTexts(keys, vals, secs) + "\n"
  {
    hide Joined, SectionLines, SectionText;
    JoinedBlank([]);
    if secs == [] {
      assert "" + "\n" == "\n";
    } else {
      SectionJoined(keys, vals, secs[0]);
      AllJoined(keys, vals, secs[1..]);
      JoinedConcat(SectionLines(keys, vals, secs[0]), AllLines(keys, vals, secs[1..]));
    }
  }

  // ---- Slots and lines

  ghost predicate ShownIn(k: string, keys: seq<Text>, secs: seq<string>) {
    var s := if IsSection(k) then k else SectionOf(k);
    s in secs && Found(keys, s)
  }

  ghost function ShownBy(keys: seq<Text>, secs: seq<string>): set<string> {
    set i | 0 <= i < |keys| && keys[i] != None && ShownIn(keys[i].value, keys, secs) :: keys[i].value
  }

  /** What the entries of section s in slots j and up cost, slot by slot. */
  ghost function EntriesAt(ms: Measure, keys: seq<Text>, vals: seq<Text>, s: string, j: nat): (r: seq<int>)
    requires |keys| == |vals|
    ensures |r| == |keys|
  {
    seq(|keys|, i requires 0 <= i < |keys| =>
      if i >= j && keys[i] != None && Belongs(keys[i].value, s) then LineCost(ms, SlotLine(keys[i].value, vals[i], false)) else 0)
  }

  lemma EntrySlotLine(k: string, v: Text, s: string)
    requires Belongs(k, s) && IsSection(s)
    ensures SlotLine(k, v, false) == Entry(PrintEntry(k[|s| + 1..], Printed(v)))
    ensures !IsSection(k) && SectionOf(k) == s
  {
    SplitKey(k, s);
    hide PrintEntry, KeyOf, SectionOf, IsSection;
  }

  lemma {:induction false} EntriesCost(ms: Measure, keys: seq<Text>, vals: seq<Text>, s: string, j: nat)
    requires |keys| == |vals| && j <= |keys| && IsSection(s)
    ensures Cost(ms, EntryLinesFrom(keys, vals, s, j)) == Total(EntriesAt(ms, keys, vals, s, j))
    decreases |keys| - j
  {
    hide Total, LineCost, SlotLine, Belongs, PrintEntry, IsSection;
    var xs := EntriesAt(ms, keys, vals, s, j);
    if j == |keys| {
      TotalZero(xs);
    } else {
      var ys := EntriesAt(ms, keys, vals, s, j + 1);
      EntriesCost(ms, keys, vals, s, j + 1);
      TotalChange(ys, xs, j);
      if keys[j] != None && Belongs(keys[j].value, s) {
        BelongsLength(keys[j].value, s);
        EntrySlotLine(keys[j].value, vals[j], s);
        var rest := EntryLinesFrom(keys, vals, s, j + 1);
        assert ([SlotLine(keys[j].value, vals[j], false)] + rest)[1..] == rest;
      }
    }
  }

  /** What the section line of s costs, at the slot of its key. */
  ghost function HeadAt(ms: Measure, keys: seq<Text>, s: string): (r: seq<int>)
    ensures |r| == |keys|
  {
    seq(|keys|, i requires 0 <= i < |keys| => if keys[i] == Some(s) then LineCost(ms, Head(s)) else 0)
  }

  lemma HeadCost(ms: Measure, keys: seq<Text>, s: string)
    requires DistinctKeys(keys) && Some(s) in keys
    ensures Total(HeadAt(ms, keys, s)) == LineCost(ms, Head(s))
  {
    hide Total, LineCost;
    var i :| 0 <= i < |keys| && keys[i] == Some(s);
    var zs := seq(|keys|, j requires 0 <= j < |keys| => 0);
    TotalZero(zs);
    forall j | 0 <= j < |keys| && j != i
      ensures keys[j] != Some(s)
    {
      OtherSlot(keys, i, j);
    }
    TotalChange(zs, HeadAt(ms, keys, s), i);
  }

  lemma SectionCost(ms: Measure, keys: seq<Text>, vals: seq<Text>, s: string)
    requires |keys| == |vals| && DistinctKeys(keys) && Some(s) in keys && IsSection(s) && Found(keys, s)
    ensures Cost(ms, SectionLines(keys, vals, s)) == Total(HeadAt(ms, keys, s)) + Total(EntriesAt(ms, keys, vals, s, 0))
  {
    hide Total, EntryLinesFrom, Found, IsSection, DistinctKeys;
    HeadCost(ms, keys, s);
    EntriesCost(ms, keys, vals, s, 0);
    var es := EntryLinesFrom(keys, vals, s, 0);
    CostConcat(ms, [Blank, Head(s)], es + [Blank]);
    CostConcat(ms, es, [Blank]);
    CostConcat(ms, [Blank], [Head(s)]);
    assert [Blank] + [Head(s)] == [Blank, Head(s)];
    OneCost(ms, Blank);
    OneCost(ms, Head(s));
  }

  lemma OneCost(ms: Measure, l: Line)
    ensures Cost(ms, [l]) == LineCost(ms, l) && Cost(ms, []) == 0
    ensures LineCost(ms, Blank) == 0
  {
    assert [l][1..] == [];
    hide Count, EntryLike;
  }

  /** One section more. */
  lemma ShownMore(ms: Measure, keys: seq<Text>, vals: seq<Text>, secs: seq<string>)
    requires |keys| == |vals| && secs != [] && secs[0] !in secs[1..] && IsSection(secs[0])
    ensures Total(Costs(ms, keys, vals, false, ShownBy(keys, secs)))
         == Total(Costs(ms, keys, vals, false, ShownBy(keys, secs[1..])))
            + if Found(keys, secs[0]) then Total(HeadAt(ms, keys, secs[0])) + Total(EntriesAt(ms, keys, vals, secs[0], 0))
              else 0
  {
    hide Total, LineCost, SlotLine, Found, Belongs, SectionOf, IsSection;
    var s := secs[0];
    var xs := Costs(ms, keys, vals, false, ShownBy(keys, secs[1..]));
    var zs := Costs(ms, keys, vals, false, ShownBy(keys, secs));
    if Found(keys, s) {
      var (hs, es) := (HeadAt(ms, keys, s), EntriesAt(ms, keys, vals, s, 0));
      var both := seq(|keys|, i requires 0 <= i < |keys| => hs[i] + es[i]);
      forall i | 0 <= i < |keys|
        ensures zs[i] == xs[i] + both[i]
      {
        ShownSlot(ms, keys, vals, secs, i);
      }
      TotalSum(hs, es, both);
      TotalSum(xs, both, zs);
    } else {
      forall i | 0 <= i < |keys|
        ensures zs[i] == xs[i]
      {
        ShownSlot(ms, keys, vals, secs, i);
      }
      assert zs == xs;
    }
  }

  lemma ShownSlot(ms: Measure, keys: seq<Text>, vals: seq<Text>, secs: seq<string>, i: nat)
    requires |keys| == |vals| && secs != [] && secs[0] !in secs[1..] && IsSection(secs[0]) && i < |keys|
    ensures var s := secs[0];
            Costs(ms, keys, vals, false, ShownBy(keys, secs))[i] == Costs(ms, keys, vals, false, ShownBy(keys, secs[1..]))[i]
              + if Found(keys, s) then HeadAt(ms, keys, s)[i] + EntriesAt(ms, keys, vals, s, 0)[i] else 0
  {
    hide LineCost, Found, Belongs, SectionOf, IsSection;
    var s := secs[0];
    assert forall x | x in secs :: x == s || x in secs[1..];
    if keys[i] != None {
      var k := keys[i].value;
      assert k in ShownBy(keys, secs) <==> ShownIn(k, keys, secs);
      assert k in ShownBy(keys, secs[1..]) <==> ShownIn(k, keys, secs[1..]);
      if IsSection(k) {
        NotBelongs(k, s);
        SectionLine0(k, vals[i]);
      } else {
        BelongsTo(k);
        if Belongs(k, s) {
          EntrySlotLine(k, vals[i], s);
        }
      }
    }
    hide SlotLine;
  }

  lemma NotBelongs(k: string, s: string)
    requires IsSection(k)
    ensures !Belongs(k, s)
  {
  }

  lemma SectionLine0(k: string, v: Text)
    requires IsSection(k)
    ensures SlotLine(k, v, false) == Head(k)
  {
  }

  /** The lines of the dump cost what the shown slots do. */
  lemma {:induction false} AllCost(ms: Measure, keys: seq<Text>, vals: seq<Text>, secs: seq<string>)
    requires |keys| == |vals| && DistinctKeys(keys) && AllDifferent(secs)
    requires forall s | s in secs :: Some(s) in keys && IsSection(s)
    ensures Cost(ms, AllLines(keys, vals, secs)) == Total(Costs(ms, keys, vals, false, ShownBy(keys, secs)))
  {
    hide *;
    if secs == [] {
      NothingShown(ms, keys, vals);
    } else {
      var (s, more) := (secs[0], secs[1..]);
      DifferentTail(secs);
      AllCost(ms, keys, vals, more);
      ShownMore(ms, keys, vals, secs);
      AllLinesIs(keys, vals, secs);
      CostConcat(ms, SectionLines(keys, vals, s), AllLines(keys, vals, more));
      if Found(keys, s) {
        SectionCost(ms, keys, vals, s);
      } else {
        NotPrinted(ms, keys, vals, s);
      }
    }
  }

  lemma NothingShown(ms: Measure, keys: seq<Text>, vals: seq<Text>)
    requires |keys| == |vals|
    ensures Cost(ms, AllLines(keys, vals, [])) == Total(Costs(ms, keys, vals, false, ShownBy(keys, []))) == 0
  {
    OneCost(ms, Blank);
    hide LineCost, SlotLine, Total;
    TotalZero(Costs(ms, keys, vals, false, ShownBy(keys, [])));
  }

  lemma AllLinesIs(keys: seq<Text>, vals: seq<Text>, secs: seq<string>)
    requires |keys| == |vals| && secs != []
    ensures AllLines(keys, vals, secs) == SectionLines(keys, vals, secs[0]) + AllLines(keys, vals, secs[1..])
  {
    hide SectionLines;
  }

  lemma NotPrinted(ms: Measure, keys: seq<Text>, vals: seq<Text>, s: string)
    requires |keys| == |vals| && !Found(keys, s)
    ensures Cost(ms, SectionLines(keys, vals, s)) == 0
  {
    hide Found, EntryLinesFrom;
  }

  lemma DifferentTail(secs: seq<string>)
    requires secs != [] && AllDifferent(secs)
    ensures secs[0] !in secs[1..] && AllDifferent(secs[1..])
  {
    assert forall a | 0 <= a < |secs[1..]| :: secs[1..][a] == secs[a + 1];
  }

  /** Every line of the dump is a single line. */
  lemma {:induction false} EntriesPrintable(keys: seq<Text>, vals: seq<Text>, s: string, j: nat)
    requires OneLines(keys, vals) && j <= |keys| && IsSection(s)
    ensures forall l | l in EntryLinesFrom(keys, vals, s, j) :: Printable1(l)
    decreases |keys| - j
  {
    hide OneLines, Printable1, Belongs, PrintEntry, IsSection, SlotLine;
    OneLinesFacts(keys, vals);
    if j < |keys| {
      EntriesPrintable(keys, vals, s, j + 1);
      if keys[j] != None && Belongs(keys[j].value, s) {
        BelongsLength(keys[j].value, s);
        EntrySlotLine(keys[j].value, vals[j], s);
        SlotPrintable(keys, vals, j, false);
      }
    }
  }

  lemma OneLinesFacts(keys: seq<Text>, vals: seq<Text>)
    requires OneLines(keys, vals)
    ensures |keys| == |vals| && DistinctKeys(keys)
    ensures forall i | 0 <= i < |keys| && keys[i] != None :: OneLine(keys[i].value)
  {
    hide OneLine;
  }

  lemma HeadPrintable(keys: seq<Text>, vals: seq<Text>, s: string)
    requires OneLines(keys, vals) && Some(s) in keys && IsSection(s)
    ensures Printable1(Head(s)) && Printable1(Blank)
  {
    var i :| 0 <= i < |keys| && keys[i] == Some(s);
    assert OneLine(keys[i].value);
    hide OneLine, IsSection;
  }

  lemma {:induction false} AllPrintable(keys: seq<Text>, vals: seq<Text>, secs: seq<string>)
    requires OneLines(keys, vals) && forall s | s in secs :: Some(s) in keys && IsSection(s)
    ensures forall l | l in AllLines(keys, vals, secs) :: Printable1(l)
  {
    hide OneLines, Printable1, EntryLinesFrom, IsSection, Found;
    OneLinesFacts(keys, vals);
    if secs == [] {
      BlankPrintable();
    } else {
      HeadPrintable(keys, vals, secs[0]);
      EntriesPrintable(keys, vals, secs[0], 0);
      AllPrintable(keys, vals, secs[1..]);
    }
  }

  lemma BlankPrintable()
    ensures Printable1(Blank)
  {
  }

  /** The section line of every section that is shown is one of the lines. */
  lemma {:induction false} HeadListed(keys: seq<Text>, vals: seq<Text>, secs: seq<string>, s: string)
    requires |keys| == |vals| && s in secs && Found(keys, s)
    ensures Head(s) in AllLines(keys, vals, secs)
  {
    hide EntryLinesFrom, Found;
    if secs[0] == s {
      assert [Blank, Head(s)][1] == Head(s);
    } else {
      HeadListed(keys, vals, secs[1..], s);
    }
  }

  /** When a dictionary with sections comes back, every line of its dump was read as what it was
      printed for. */
  lemma SectionsRead(keys: seq<Text>, vals: seq<Text>)
    requires OneLines(keys, vals) && SectionsFrom(keys, 0) != [] && Survives(keys, vals)
    ensures LinesRead(keys, vals)
  {
    hide *;
    OneLinesFacts(keys, vals);
    var (secs, m) := (SectionsFrom(keys, 0), MapOf(keys, vals));
    var (ls, shown) := (AllLines(keys, vals, secs), ShownBy(keys, secs));
    SectionsAre(keys, 0);
    SectionsDistinct(keys, 0);
    AllJoined(keys, vals, secs);
    DumpedIs(keys, vals);
    SurvivesIs(keys, vals);
    AllPrintable(keys, vals, secs);
    LoadedWithin(false, keys, ls, m);
    AllCost(Brackets, keys, vals, secs);
    AllCost(Slashes(false), keys, vals, secs);
    Balance(keys, vals, false, shown);
    StartFacts();
    RunIsLoad(ls, START);
    LoadTextParts(Joined(ls));
    RunFits(ls, START);
    forall i | 0 <= i < |keys| && keys[i] != None
      ensures SlotRead(keys[i].value, vals[i], SectionsFrom(keys, 0) == [])
    {
      var k := keys[i].value;
      if IsSection(k) {
        ShownSection(keys, secs, k);
        HeadListed(keys, vals, secs, k);
        HeadShort(k);
        SectionRead(k, vals[i]);
      } else {
        EntryRead1(k, vals[i]);
      }
    }
    LinesReadIs(keys, vals);
  }

  lemma SurvivesIs(keys: seq<Text>, vals: seq<Text>)
    requires Survives(keys, vals)
    ensures |keys| == |vals| && LoadText(DumpText(keys, vals)) == Some(MapOf(keys, vals))
  {
    hide LoadText, DumpText, MapOf;
  }

  lemma ShownSection(keys: seq<Text>, secs: seq<string>, s: string)
    requires s in ShownBy(keys, secs) && IsSection(s)
    ensures s in secs && Found(keys, s)
  {
    hide Found, IsSection, SectionOf;
  }

  lemma HeadShort(s: string)
    ensures LineText(Head(s)) == PrintSection(s)
  {
  }

  lemma SectionRead(k: string, v: Text)
    requires OneLine(k) && IsSection(k) && |PrintSection(k)| < LINE_ROOM
    ensures SlotRead(k, v, false)
  {
  }

  lemma EntryRead1(k: string, v: Text)
    requires OneLine(k) && !IsSection(k) && LikeCost(SlotLine(k, v, false)) == 0
    ensures SlotRead(k, v, false)
  {
    hide EntryLike, PrintEntry, KeyOf, IsSection, OneLine;
  }

  lemma LinesReadIs(keys: seq<Text>, vals: seq<Text>)
    requires |keys| == |vals| && DistinctKeys(keys)
    requires forall i | 0 <= i < |keys| && keys[i] != None :: SlotRead(keys[i].value, vals[i], SectionsFrom(keys, 0) == [])
    ensures LinesRead(keys, vals)
  {
    hide SlotRead, SectionsFrom;
  }

  // ---- The dump of a dictionary without sections

  function PlainLines(keys: seq<Text>, vals: seq<Text>, j: nat): seq<Line>
    requires |keys| == |vals| && j <= |keys|
    decreases |keys| - j
  {
    if j == |keys| then []
    else if keys[j] != None then [SlotLine(keys[j].value, vals[j], true)] + PlainLines(keys, vals, j + 1)
    else PlainLines(keys, vals, j + 1)
  }

  lemma PlainSlotLine(k: string, v: Text)
    ensures SlotLine(k, v, true) == Entry(PlainEntry(k, v)) && LineText(SlotLine(k, v, true)) == PlainEntry(k, v)
  {
    hide PlainEntry;
  }

  lemma {:induction false} PlainJoined(keys: seq<Text>, vals: seq<Text>, j: nat)
    requires |keys| == |vals| && j <= |keys|
    ensures Joined(PlainLines(keys, vals, j)) == PlainFrom(keys, vals, j)
    decreases |keys| - j
  {
    hide Joined, SlotLine, PlainEntry, LineText;
    JoinedBlank([]);
    if j < |keys| {
      PlainJoined(keys, vals, j + 1);
      if keys[j] != None {
        JoinedOne(SlotLine(keys[j].value, vals[j], true), PlainLines(keys, vals, j + 1));
        PlainSlotLine(keys[j].value, vals[j]);
        PlainParts(PlainEntry(keys[j].value, vals[j]), PlainFrom(keys, vals, j + 1));
      }
    }
  }

  lemma PlainParts(t: string, more: string)
    ensures t + ("\n" + more) == t + "\n" + more
  {
  }

  lemma {:induction false} PlainPrintable(keys: seq<Text>, vals: seq<Text>, j: nat)
    requires OneLines(keys, vals) && j <= |keys|
    ensures forall l | l in PlainLines(keys, vals, j) :: Printable1(l) && !l.Head?
    decreases |keys| - j
  {
    hide OneLines, Printable1, SlotLine;
    OneLinesFacts(keys, vals);
    if j < |keys| {
      PlainPrintable(keys, vals, j + 1);
      if keys[j] != None {
        SlotPrintable(keys, vals, j, true);
        PlainSlotLine(keys[j].value, vals[j]);
      }
    }
  }

  ghost function PlainAt(ms: Measure, keys: seq<Text>, vals: seq<Text>, j: nat): (r: seq<int>)
    requires |keys| == |vals|
    ensures |r| == |keys|
  {
    seq(|keys|, i requires 0 <= i < |keys| =>
      if i >= j && keys[i] != None then LineCost(ms, SlotLine(keys[i].value, vals[i], true)) else 0)
  }

  lemma {:induction false} PlainCost(ms: Measure, keys: seq<Text>, vals: seq<Text>, j: nat)
    requires |keys| == |vals| && j <= |keys|
    ensures Cost(ms, PlainLines(keys, vals, j)) == Total(PlainAt(ms, keys, vals, j))
    decreases |keys| - j
  {
    hide Total, LineCost, SlotLine;
    var xs := PlainAt(ms, keys, vals, j);
    if j == |keys| {
      TotalZero(xs);
    } else {
      PlainCost(ms, keys, vals, j + 1);
      TotalChange(PlainAt(ms, keys, vals, j + 1), xs, j);
      if keys[j] != None {
        var rest := PlainLines(keys, vals, j + 1);
        assert ([SlotLine(keys[j].value, vals[j], true)] + rest)[1..] == rest;
      }
    }
  }

  ghost function AllKeys(keys: seq<Text>): set<string> {
    set i | 0 <= i < |keys| && keys[i] != None :: keys[i].value
  }

  lemma PlainCosts(ms: Measure, keys: seq<Text>, vals: seq<Text>)
    requires |keys| == |vals|
    ensures PlainAt(ms, keys, vals, 0) == Costs(ms, keys, vals, true, AllKeys(keys))
  {
    hide LineCost, SlotLine;
  }

  lemma PlainRead(keys: seq<Text>, vals: seq<Text>)
    requires OneLines(keys, vals) && SectionsFrom(keys, 0) == [] && Survives(keys, vals)
    ensures LinesRead(keys, vals)
  {
    hide *;
    OneLinesFacts(keys, vals);
    var (ls, m) := (PlainLines(keys, vals, 0), MapOf(keys, vals));
    SectionsAre(keys, 0);
    PlainJoined(keys, vals, 0);
    DumpedIs(keys, vals);
    SurvivesIs(keys, vals);
    PlainPrintable(keys, vals, 0);
    LoadedWithin(true, keys, ls, m);
    PlainCost(Brackets, keys, vals, 0);
    PlainCost(Slashes(true), keys, vals, 0);
    PlainCosts(Brackets, keys, vals);
    PlainCosts(Slashes(true), keys, vals);
    Balance(keys, vals, true, AllKeys(keys));
    forall i | 0 <= i < |keys| && keys[i] != None
      ensures SlotRead(keys[i].value, vals[i], SectionsFrom(keys, 0) == [])
    {
      PlainRead1(keys[i].value, vals[i]);
    }
    LinesReadIs(keys, vals);
  }

  lemma PlainRead1(k: string, v: Text)
    requires OneLine(k) && !IsSection(k) && LikeCost(SlotLine(k, v, true)) == 0
    ensures SlotRead(k, v, true)
  {
    hide EntryLike, PlainEntry, IsSection, OneLine;
  }

  // ---- Loaded strings are single lines

  ghost predicate Flat(st: Loader) {
    && OneLine(st.prefix) && OneLine(st.section)
    && forall k | k in st.dict :: OneLine(k) && OneLine(Printed(st.dict[k]))
  }

  lemma {:induction false} ChunkEndsLine(file: string, room: nat)
    ensures forall i | 0 <= i < ChunkLen(file, room) - 1 :: file[i] != '\n'
  {
    if file != "" && room > 0 && file[0] != '\n' {
      ChunkEndsLine(file[1..], room - 1);
      assert forall i | 0 < i < |file| :: file[i] == file[1..][i - 1];
    }
  }

  /** The text of a round without the blanks at its end is a single line. */
  lemma TextFlat(prefix: string, chunk: string)
    requires OneLine(prefix) && forall i | 0 <= i < |chunk| - 1 :: chunk[i] != '\n'
    ensures OneLine(TrimRight(CText(prefix + chunk)))
  {
    var text := CText(prefix + chunk);
    TextIsPrefix(prefix + chunk);
    var t := TrimRight(text);
    TrimIsPrefix(text);
    TrimEnds(text);
    hide TrimRight, CText;
    forall i | 0 <= i < |t|
      ensures t[i] != '\n' && t[i] != '\0'
    {
      assert t[i] == text[i] == (prefix + chunk)[i];
      if i == |prefix + chunk| - 1 {
        assert i == |t| - 1;
      } else if i < |prefix| {
        assert prefix[i] in prefix;
      } else {
        assert (prefix + chunk)[i] == chunk[i - |prefix|];
      }
    }
  }

  lemma TextIsPrefix(s: string)
    ensures CText(s) == s[..|CText(s)|] && |CText(s)| <= |s| && '\0' !in CText(s)
  {
  }

  lemma TrimEnds(text: string)
    ensures var t := TrimRight(text); t != "" ==> t[|t| - 1] != '\n'
  {
  }

  lemma CountOneLine(s: string)
    ensures OneLine(s) <==> Count(s, '\n') == 0 && Count(s, '\0') == 0
  {
    CountIn(s, '\n');
    CountIn(s, '\0');
    hide Count;
  }

  lemma ValueFlat(t: string, section: string)
    requires OneLine(t) && ParseLine(t, section).Value?
    ensures OneLine(ParseLine(t, section).key) && OneLine(ParseLine(t, section).value)
  {
    hide *;
    var r := ParseLine(t, section);
    MarkBracket();
    CountOneLine(t);
    ParsedValueCount(t, section, '\n');
    ParsedValueCount(t, section, '\0');
    CountOneLine(r.key);
    CountOneLine(r.value);
  }

  lemma ScannedCount(line: string, c: char)
    ensures ScanSection(line) != None ==> Count(ScanSection(line).value, c) <= Count(line, c)
  {
    if line != "" {
      var n := Until(line[1..], {']'});
      CountPrefix(line, 1, c);
      CountPrefix(line[1..], n, c);
    }
    hide Count, Until;
  }

  lemma SectionFlat(t: string, section: string)
    requires OneLine(t) && OneLine(section) && ParseLine(t, section).Section?
    ensures OneLine(ParseLine(t, section).name)
  {
    hide *;
    ParseIs(t, section);
    ParsedAsSection(t, section);
    var line := Strip(t);
    var x := ScanSection(line);
    var raw := if x == None then section else x.value;
    MarkBracket();
    CountOneLine(t);
    CountOneLine(section);
    CountTrim(t, '\n');
    CountTrim(t, '\0');
    ScannedCount(line, '\n');
    ScannedCount(line, '\0');
    CountCleaned(raw, |line|, '\n');
    CountCleaned(raw, |line|, '\0');
    CountOneLine(Cleaned(raw, |line|));
  }

  lemma ApplyFlat(st: Loader, t: string)
    requires Flat(st) && OneLine(t)
    ensures Flat(Apply(st.(prefix := ""), ParseLine(t, st.section)))
  {
    hide ParseLine;
    match ParseLine(t, st.section)
    case Value(k, v) => ValueFlat(t, st.section);
    case Section(name) => SectionFlat(t, st.section);
    case _ =>
  }

  lemma ChunkFlat(st: Loader, chunk: string)
    requires Flat(st) && |st.prefix| < LINE_ROOM && |st.prefix| + |chunk| <= LINE_ROOM
    requires forall i | 0 <= i < |chunk| - 1 :: chunk[i] != '\n'
    ensures LoadChunk(st, chunk) != None ==> Flat(LoadChunk(st, chunk).value)
  {
    hide *;
    LoadChunkTakes(st, chunk);
    FlatPrefix(st);
    var text := CText(st.prefix + chunk);
    TextFlat(st.prefix, chunk);
    var t := TrimRight(text);
    TakeTextOf(st, text, text);
    ApplyFlat(st, t);
    if Continued(text) {
      ContinuedIs(text);
      KeptFlat(st, t);
    }
  }

  lemma LoadChunkTakes(st: Loader, chunk: string)
    requires |st.prefix| < LINE_ROOM && |st.prefix| + |chunk| <= LINE_ROOM
    ensures LoadChunk(st, chunk) != None ==>
              LoadChunk(st, chunk).value == st || LoadChunk(st, chunk).value == TakeText(st, CText(st.prefix + chunk))
  {
    hide TakeText, CText, MetEnd;
  }

  lemma FlatPrefix(st: Loader)
    requires Flat(st)
    ensures OneLine(st.prefix)
  {
  }

  lemma KeptFlat(st: Loader, t: string)
    requires Flat(st) && OneLine(t) && t != ""
    ensures Flat(st.(prefix := t[..|t| - 1]))
  {
    assert forall i | 0 <= i < |t| - 1 :: t[..|t| - 1][i] == t[i];
  }

  lemma {:induction false} LoadsFlat(file: string, st: Loader)
    requires Flat(st) && |st.prefix| < LINE_ROOM
    ensures Loads(file, st) != None ==> Flat(Loads(file, st).value)
    decreases |file|
  {
    hide LoadChunk, ChunkLen, Flat;
    if file != "" {
      var n := ChunkLen(file, LINE_ROOM - |st.prefix|);
      ChunkBounds(file, LINE_ROOM - |st.prefix|);
      ChunkEndsLine(file, LINE_ROOM - |st.prefix|);
      ChunkFlat(st, file[..n]);
      var next := LoadChunk(st, file[..n]);
      if next != None {
        LoadChunkBound(st, file[..n]);
        LoadsFlat(file[n..], next.value);
      }
    }
  }

  lemma ChunkBounds(file: string, room: nat)
    ensures ChunkLen(file, room) <= |file| && ChunkLen(file, room) <= room
    ensures file != "" && room > 0 ==> ChunkLen(file, room) > 0
  {
  }

  lemma LoadChunkBound(st: Loader, chunk: string)
    requires |st.prefix| < LINE_ROOM && |st.prefix| + |chunk| <= LINE_ROOM && LoadChunk(st, chunk) != None
    ensures |LoadChunk(st, chunk).value.prefix| < LINE_ROOM
  {
  }

  lemma StartFlat()
    ensures Flat(START)
  {
  }

  lemma FlatDict(st: Loader)
    requires Flat(st)
    ensures forall k | k in st.dict :: OneLine(k) && OneLine(Printed(st.dict[k]))
  {
  }

  /** So a dictionary that comes back has one-line strings. */
  lemma SurvivesFlat(keys: seq<Text>, vals: seq<Text>)
    requires |keys| == |vals| && DistinctKeys(keys) && Survives(keys, vals)
    ensures OneLines(keys, vals)
  {
    hide *;
    SurvivesIs(keys, vals);
    StartFacts();
    StartFlat();
    LoadsFlat(DumpText(keys, vals), START);
    LoadTextParts(DumpText(keys, vals));
    FlatDict(Loads(DumpText(keys, vals), START).value);
    SlotsOf(keys, vals);
    OneLinesIs(keys, vals);
  }

  // ---- The result

  /** A dictionary comes back from being dumped and loaded exactly when it is well formed. */
  lemma SurvivesIff(keys: seq<Text>, vals: seq<Text>)
    requires |keys| == |vals| && DistinctKeys(keys)
    ensures Survives(keys, vals) <==> WellFormed(keys, vals)
  {
    hide *;
    if WellFormed(keys, vals) {
      WellFormedSurvives(keys, vals);
    } else if Survives(keys, vals) {
      SurvivesFlat(keys, vals);
      if SectionsFrom(keys, 0) == [] {
        PlainRead(keys, vals);
      } else {
        SectionsRead(keys, vals);
      }
      ReadSurvivesIff(keys, vals);
    }
  }

  /** Without sections only the empty dictionary does: each load puts one more colon in front of
      every key. */
  lemma PlainSurvivesIff(keys: seq<Text>, vals: seq<Text>)
    requires |keys| == |vals| && DistinctKeys(keys) && SectionsFrom(keys, 0) == []
    ensures Survives(keys, vals) <==> MapOf(keys, vals) == map[]
  {
    hide *;
    if MapOf(keys, vals) == map[] {
      EmptySurvives(keys, vals);
    } else if Survives(keys, vals) {
      SurvivesFlat(keys, vals);
      PlainRead(keys, vals);
      ReadPlainSurvivesIff(keys, vals);
    }
  }

  lemma OneLinesIs(keys: seq<Text>, vals: seq<Text>)
    requires |keys| == |vals| && DistinctKeys(keys)
    requires forall i | 0 <= i < |keys| && keys[i] != None :: OneLine(keys[i].value) && OneLine(Printed(vals[i]))
    ensures OneLines(keys, vals)
  {
    hide OneLine, Printed;
  }
}
