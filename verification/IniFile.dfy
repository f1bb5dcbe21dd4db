/**
 Whole ini files: what `iniparser_load` makes of the bytes of a file, what
 `iniparser_dump_ini` writes, and that loading undoes dumping.
 */
module IniFile {
  import opened CType
  import opened Options
  import opened IniLine
  import opened Dictionaries

  // ---- Loading

  /** `fgets(line + last, ASCIILINESZ - last, in)` stores at most ASCIILINESZ - 1 bytes. */
  const LINE_ROOM: nat := 1023

  /** The state of the load loop: the text kept from a continued line, the section buffer, the
      dictionary, and whether a syntax error was seen. */
  datatype Loader = Loader(prefix: string, section: string, dict: map<string, Text>, errs: bool)

  const START := Loader("", "", map[], false)

  /** The number of bytes one `fgets` takes: up to and including a newline, or until the buffer
      is full, or to the end of the file. */
  function ChunkLen(file: string, room: nat): (n: nat)
    ensures n <= |file| && n <= room && (file != "" && room > 0 ==> n > 0)
  {
    if file == "" || room == 0 then 0
    else if file[0] == '\n' then 1
    else 1 + ChunkLen(file[1..], room - 1)
  }

  function Apply(st: Loader, r: LineResult): Loader {
    match r
    case Empty => st
    case Comment => st
    case Section(name) => st.(section := name, dict := st.dict[name := None])
    case Value(key, value) => st.(dict := st.dict[st.section + ":" + key := Some(value)])
    case Error => st.(errs := true)
  }

  function TakeText(st: Loader, text: string): (r: Loader)
    ensures |r.prefix| < |text| || r.prefix == ""
  {
    hide ParseLine;
    match LoadedLine(text, st.section)
    case Continues(prefix) => st.(prefix := prefix)
    case Parsed(result) => Apply(st.(prefix := ""), result)
  }

  /** The C string at the start of some bytes. */
  function CText(s: string): (r: string)
    ensures |r| <= |s| && '\0' !in r && ('\0' !in s ==> r == s)
  {
    s[..Until(s, {'\0'})]
  }

  /** Whether reading the chunk met the end of the file: it neither ends a line nor fills the
      buffer. */
  predicate MetEnd(st: Loader, chunk: string) {
    |st.prefix| + |chunk| < LINE_ROOM && (chunk == "" || chunk[|chunk| - 1] != '\n')
  }

  /** One round of the load loop. A lone byte is skipped; text without a newline at its end aborts
      the load except at the end of the file. */
  function LoadChunk(st: Loader, chunk: string): (r: Option<Loader>)
    requires |st.prefix| < LINE_ROOM && |st.prefix| + |chunk| <= LINE_ROOM
    ensures r.Some? ==> |r.value.prefix| < LINE_ROOM
  {
    var text := CText(st.prefix + chunk);
    if |text| <= 1 then Some(st)
    else if text[|text| - 1] != '\n' && !MetEnd(st, chunk) then None
    else Some(TakeText(st, text))
  }

  function Loads(file: string, st: Loader): Option<Loader>
    requires |st.prefix| < LINE_ROOM
    decreases |file|
  {
    if file == "" then Some(st)
    else
      var n := ChunkLen(file, LINE_ROOM - |st.prefix|);
      var next := LoadChunk(st, file[..n]);
      if next == None then None else Loads(file[n..], next.value)
  }

  /** `iniparser_load`: the dictionary, or nothing if a line was too long or malformed. */
  function LoadText(file: string): Option<map<string, Text>> {
    var end := Loads(file, START);
    if end == None || end.value.errs then None else Some(end.value.dict)
  }

  // ---- Dumping

  predicate IsSection(k: string) {
    ':' !in k
  }

  /** `!strncmp(key, "s:", seclen + 1)`. */
  predicate Belongs(k: string, s: string) {
    |s| < |k| && k[..|s|] == s && k[|s|] == ':'
  }

  function EntryLine(k: string, s: string, v: Text): string
    requires Belongs(k, s)
  {
    PrintEntry(k[|s| + 1..], if v == None then "" else v.value) + "\n"
  }

  /** The entries of section s in slots j and up, one line each. */
  function EntriesFrom(keys: seq<Text>, vals: seq<Text>, s: string, j: nat): string
    requires |keys| == |vals| && j <= |keys|
    decreases |keys| - j
  {
    if j == |keys| then ""
    else if keys[j] != None && Belongs(keys[j].value, s) then
      EntryLine(keys[j].value, s, vals[j]) + EntriesFrom(keys, vals, s, j + 1)
    else EntriesFrom(keys, vals, s, j + 1)
  }

  /** `iniparser_dumpsection_ini`; the lookup goes through a lower-cased copy of at most
      ASCIILINESZ bytes of the name. */
  function SectionText(keys: seq<Text>, vals: seq<Text>, s: string): string
    requires |keys| == |vals|
  {
    if Some(Lower(Cut(s, 1024))) !in keys then ""
    else "\n" + (PrintSection(s) + "\n" + (EntriesFrom(keys, vals, s, 0) + "\n"))
  }

  /** The section names in slot order. */
  function SectionsFrom(keys: seq<Text>, j: nat): seq<string>
    requires j <= |keys|
    decreases |keys| - j
  {
    if j == |keys| then []
    else if keys[j] != None && IsSection(keys[j].value) then [keys[j].value] + SectionsFrom(keys, j + 1)
    else SectionsFrom(keys, j + 1)
  }

  function SectionTexts(keys: seq<Text>, vals: seq<Text>, secs: seq<string>): string
    requires |keys| == |vals|
  {
    if secs == [] then "" else SectionText(keys, vals, secs[0]) + SectionTexts(keys, vals, secs[1..])
  }

  /** `"%s = %s"`, without the newline; a NULL value prints as "(null)". */
  function PlainEntry(k: string, v: Text): string {
    PrintPadded(k, 0, if v == None then "(null)" else v.value)
  }

  function PlainLine(k: string, v: Text): string {
    PlainEntry(k, v) + "\n"
  }

  /** "No section in file: dump all keys as they are." */
  function PlainFrom(keys: seq<Text>, vals: seq<Text>, j: nat): string
    requires |keys| == |vals| && j <= |keys|
    decreases |keys| - j
  {
    if j == |keys| then ""
    else if keys[j] != None then
      PlainLine(keys[j].value, vals[j]) + PlainFrom(keys, vals, j + 1)
    else PlainFrom(keys, vals, j + 1)
  }

  /** `iniparser_dump_ini`. */
  function DumpText(keys: seq<Text>, vals: seq<Text>): string
    requires |keys| == |vals|
  {
    var secs := SectionsFrom(keys, 0);
    if secs == [] then PlainFrom(keys, vals, 0) else SectionTexts(keys, vals, secs) + "\n"
  }

  // ---- Dictionaries that survive

  predicate OneLine(s: string) {
    '\n' !in s && '\0' !in s
  }

  function SectionOf(k: string): string {
    k[..Until(k, {':'})]
  }

  function KeyOf(k: string): string {
    if IsSection(k) then "" else k[Until(k, {':'}) + 1..]
  }

  /** An empty name is read back only if no name was read before. */
  predicate GoodSection(k: string, v: Text) {
    (k == "" || PrintableSection(k)) && v == None && OneLine(k) && |PrintSection(k)| < LINE_ROOM
  }

  predicate GoodEntry(k: string, v: Text) {
    && v != None && Printable(KeyOf(k), v.value) && OneLine(k) && OneLine(v.value)
    && |PrintEntry(KeyOf(k), v.value)| < LINE_ROOM
  }

  predicate EmptyFirst(secs: seq<string>) {
    "" in secs ==> secs[0] == ""
  }

  /** What the round trip needs: section names and keys in the form the loader gives them, an
      empty name in the first slot of all names only, every section of an entry present, values
      that survive a line, lines that fit the buffer. */
  ghost predicate WellFormed(keys: seq<Text>, vals: seq<Text>) {
    && |keys| == |vals| && DistinctKeys(keys)
    && (forall i | 0 <= i < |keys| && keys[i] != None ::
          if IsSection(keys[i].value) then GoodSection(keys[i].value, vals[i])
          else GoodEntry(keys[i].value, vals[i]) && Some(SectionOf(keys[i].value)) in keys)
    && EmptyFirst(SectionsFrom(keys, 0))
  }

  // ---- One line of the file

  lemma {:induction false} ChunkOfLine(line: string, rest: string, room: nat)
    requires '\n' !in line && |line| < room
    ensures ChunkLen(line + ("\n" + rest), room) == |line| + 1
  {
    var file := line + ("\n" + rest);
    if line == "" {
      assert file == "\n" + rest;
    } else {
      assert file[1..] == line[1..] + ("\n" + rest);
      ChunkOfLine(line[1..], rest, room - 1);
    }
  }

  lemma NewlineTrimmed(line: string, section: string)
    ensures LoadedLine(line + "\n", section) == LoadedLine(line, section)
  {
    TrimRightSpaces(line, "\n");
  }

  lemma LineCut(line: string, rest: string)
    ensures var file := line + ("\n" + rest);
            file != "" && file[..|line| + 1] == line + "\n" && file[|line| + 1..] == rest
  {
  }

  lemma ChunkLoaded(line: string, st: Loader)
    requires |line| + 1 <= LINE_ROOM && st.prefix == "" && '\0' !in line
    ensures LoadChunk(st, line + "\n") == Some(if line == "" then st else TakeText(st, line + "\n"))
  {
    hide TakeText;
    assert "" + (line + "\n") == line + "\n";
  }

  /** A line that fits the buffer is read whole. */
  lemma LoadsLine(line: string, rest: string, st: Loader)
    requires OneLine(line) && |line| < LINE_ROOM && st.prefix == ""
    ensures Loads(line + ("\n" + rest), st)
         == Loads(rest, if line == "" then st else TakeText(st, line + "\n"))
  {
    ChunkOfLine(line, rest, LINE_ROOM);
    LineCut(line, rest);
    ChunkLoaded(line, st);
    hide ChunkLen, LoadChunk, TakeText;
  }

  lemma BlankLine(rest: string, st: Loader)
    requires st.prefix == ""
    ensures Loads("\n" + rest, st) == Loads(rest, st)
  {
    hide Loads;
    LoadsLine("", rest, st);
    assert "" + ("\n" + rest) == "\n" + rest;
  }

  lemma GoodSectionParts(s: string, v: Text)
    requires GoodSection(s, v)
    ensures (s == "" || PrintableSection(s)) && v == None
  {
  }

  /** The line of a good section name, an empty one before any other name only. */
  lemma SectionLine(s: string, rest: string, st: Loader)
    requires GoodSection(s, None) && st.prefix == "" && (s == "" ==> st.section == "")
    ensures Loads(PrintSection(s) + ("\n" + rest), st)
         == Loads(rest, st.(section := s, dict := st.dict[s := None]))
  {
    var line := PrintSection(s);
    assert OneLine(line) && line != "" && |line| < LINE_ROOM;
    hide *;
    LoadsLine(line, rest, st);
    NewlineTrimmed(line, st.section);
    GoodSectionParts(s, None);
    if s == "" {
      SectionParsed("", "");
      EmptyName();
    } else {
      SectionSurvives(s);
    }
    assert LoadedLine(line, st.section) == Parsed(Section(s));
    TakesResult(st, line + "\n", Section(s));
    ApplySection(st, s);
  }

  lemma EmptyName()
    ensures ReadName("", "") == ""
  {
    StripNothing();
  }

  lemma TakesResult(st: Loader, text: string, r: LineResult)
    requires LoadedLine(text, st.section) == Parsed(r) && st.prefix == ""
    ensures TakeText(st, text) == Apply(st, r)
  {
    hide LoadedLine, Apply;
    assert st.(prefix := "") == st;
  }

  lemma ApplyValue(st: Loader, k: string, v: string)
    ensures Apply(st, Value(k, v)) == st.(dict := st.dict[st.section + ":" + k := Some(v)])
  {
  }

  lemma ApplySection(st: Loader, s: string)
    ensures Apply(st, Section(s)) == st.(section := s, dict := st.dict[s := None])
  {
  }

  lemma EntryFacts(k: string, v: string)
    requires OneLine(k) && OneLine(v)
    ensures OneLine(PrintEntry(k, v)) && PrintEntry(k, v) != ""
  {
    PaddedOneLine(k, PadOf(k), v);
  }

  lemma PaddedOneLine(k: string, pad: nat, v: string)
    requires OneLine(k) && OneLine(v)
    ensures OneLine(PrintPadded(k, pad, v)) && PrintPadded(k, pad, v) != ""
  {
    assert OneLine(Spaces(pad));
  }

  lemma ValueLine(k: string, v: string, rest: string, st: Loader)
    requires OneLine(k) && OneLine(v) && Printable(k, v) && |PrintEntry(k, v)| < LINE_ROOM && st.prefix == ""
    ensures Loads(PrintEntry(k, v) + ("\n" + rest), st)
         == Loads(rest, st.(dict := st.dict[st.section + ":" + k := Some(v)]))
  {
    hide *;
    var line := PrintEntry(k, v);
    EntryFacts(k, v);
    LoadsLine(line, rest, st);
    NewlineTrimmed(line, st.section);
    EntrySurvives(k, v, st.section);
    TakesResult(st, line + "\n", Value(k, v));
    ApplyValue(st, k, v);
  }

  // ---- Continued lines

  lemma TakeTextPrefix(st: Loader, prefix: string, text: string)
    ensures TakeText(st.(prefix := prefix), text) == TakeText(st, text)
  {
    hide LoadedLine;
  }

  lemma ContinuedIs(a: string, section: string)
    ensures LoadedLine(a + "\\\n", section) == Continues(a)
  {
    var s := a + "\\\n";
    assert s == (a + ['\\']) + ['\n'];
    TrimRightSpaces(a + ['\\'], ['\n']);
    assert TrimRight(a + ['\\']) == a + ['\\'];
    hide ParseLine;
  }

  lemma FirstHalfTaken(a: string, more: string, st: Loader)
    requires OneLine(a) && |a| + 2 <= LINE_ROOM && st.prefix == ""
    ensures Loads(a + "\\" + ("\n" + more), st) == Loads(more, st.(prefix := a))
  {
    assert OneLine(a + "\\");
    LoadsLine(a + "\\", more, st);
    assert a + "\\" + "\n" == a + "\\\n";
    ContinuedIs(a, st.section);
    hide Loads, LoadedLine;
  }

  lemma LoadsStep(file: string, st: Loader, n: nat, next: Loader)
    requires |st.prefix| < LINE_ROOM && |next.prefix| < LINE_ROOM && file != ""
    requires n == ChunkLen(file, LINE_ROOM - |st.prefix|) && n <= |file| && n <= LINE_ROOM - |st.prefix|
    requires LoadChunk(st, file[..n]) == Some(next)
    ensures Loads(file, st) == Loads(file[n..], next)
  {
    hide ChunkLen, LoadChunk;
  }

  lemma LoadsFirst(file: string, chunk: string, rest: string, st: Loader, next: Loader)
    requires |st.prefix| < LINE_ROOM && |next.prefix| < LINE_ROOM && file != ""
    requires |chunk| <= |file| && file[..|chunk|] == chunk && file[|chunk|..] == rest
    requires |chunk| == ChunkLen(file, LINE_ROOM - |st.prefix|) && |chunk| <= LINE_ROOM - |st.prefix|
    requires LoadChunk(st, chunk) == Some(next)
    ensures Loads(file, st) == Loads(rest, next)
  {
    hide ChunkLen, LoadChunk;
    LoadsStep(file, st, |chunk|, next);
  }

  lemma JoinedChunk(a: string, b: string, st: Loader)
    requires |a| + |b| < LINE_ROOM && a + b != "" && '\0' !in a && '\0' !in b
    ensures LoadChunk(st.(prefix := a), b + "\n") == Some(TakeText(st, a + b + "\n"))
    ensures |TakeText(st, a + b + "\n").prefix| < LINE_ROOM
  {
    TakeTextPrefix(st, a, a + b + "\n");
    assert a + (b + "\n") == a + b + "\n";
    hide LoadedLine;
  }

  lemma SecondHalfTaken(a: string, b: string, rest: string, st: Loader)
    requires '\n' !in b && '\0' !in a && '\0' !in b && |a| + |b| < LINE_ROOM && a + b != "" && st.prefix == ""
    ensures Loads(b + ("\n" + rest), st.(prefix := a)) == Loads(rest, TakeText(st, a + b + "\n"))
  {
    hide *;
    ChunkOfLine(b, rest, LINE_ROOM - |a|);
    JoinedChunk(a, b, st);
    LoadsJoined(b, rest, st.(prefix := a), TakeText(st, a + b + "\n"));
  }

  lemma LoadsJoined(line: string, rest: string, st: Loader, next: Loader)
    requires |st.prefix| + |line| < LINE_ROOM && |next.prefix| < LINE_ROOM
    requires ChunkLen(line + ("\n" + rest), LINE_ROOM - |st.prefix|) == |line| + 1
    requires LoadChunk(st, line + "\n") == Some(next)
    ensures Loads(line + ("\n" + rest), st) == Loads(rest, next)
  {
    hide *;
    LineCut(line, rest);
    LoadsFirst(line + ("\n" + rest), line + "\n", rest, st, next);
  }

  /** A line that ends in a backslash is joined with the next one: the file reads as if both
      stood on one line. */
  lemma ContinuedLine(a: string, b: string, rest: string, st: Loader)
    requires OneLine(a) && OneLine(b) && a + b != "" && st.prefix == ""
    requires |a| + 2 <= LINE_ROOM && |a| + |b| < LINE_ROOM
    ensures Loads(a + "\\" + ("\n" + (b + ("\n" + rest))), st) == Loads(a + b + ("\n" + rest), st)
  {
    hide Loads, TakeText;
    FirstHalfTaken(a, b + ("\n" + rest), st);
    SecondHalfTaken(a, b, rest, st);
    LoadsLine(a + b, rest, st);
  }

  // ---- The loader reads back one section

  lemma SplitKey(k: string, s: string)
    requires Belongs(k, s) && IsSection(s)
    ensures !IsSection(k) && SectionOf(k) == s && KeyOf(k) == k[|s| + 1..] && k == s + ":" + KeyOf(k)
  {
    assert forall i | 0 <= i < |s| :: k[i] == s[i];
    assert k[|s|] in k;
    UntilAt(k, {':'}, |s|);
  }

  lemma BelongsTo(k: string)
    requires !IsSection(k)
    ensures Belongs(k, SectionOf(k)) && IsSection(SectionOf(k))
  {
    UntilNone(k, {':'});
  }

  lemma OneLineParts(k: string)
    requires OneLine(k)
    ensures OneLine(KeyOf(k))
  {
    if !IsSection(k) {
      UntilNone(k, {':'});
    }
  }

  /** Between lines: nothing continued, no error, nothing in the dictionary that was not dumped. */
  ghost predicate Clean(st: Loader, m: map<string, Text>) {
    && st.prefix == "" && !st.errs
    && (forall k | k in st.dict :: k in m && st.dict[k] == m[k])
  }

  /** Every entry of section s in slots j and up is in the dictionary. */
  ghost predicate Covers(d: map<string, Text>, keys: seq<Text>, s: string, j: nat) {
    forall i | j <= i < |keys| && keys[i] != None && Belongs(keys[i].value, s) :: keys[i].value in d
  }

  /** The entry in slot j, if it belongs to section s, is read back. */
  lemma EntryLoaded(keys: seq<Text>, vals: seq<Text>, s: string, j: nat, rest: string, st: Loader)
    requires WellFormed(keys, vals) && j < |keys| && keys[j] != None && Belongs(keys[j].value, s)
    requires IsSection(s) && st.section == s && st.prefix == ""
    ensures vals[j] != None
    ensures Loads(EntryLine(keys[j].value, s, vals[j]) + rest, st)
         == Loads(rest, st.(dict := st.dict[keys[j].value := vals[j]]))
  {
    var k := keys[j].value;
    SplitKey(k, s);
    GoodAt(keys, vals, j);
    hide *;
    OneLineParts(k);
    var v := vals[j].value;
    ValueLine(KeyOf(k), v, rest, st);
    EntryLineParts(k, s, vals[j], rest);
  }

  lemma GoodAt(keys: seq<Text>, vals: seq<Text>, j: nat)
    requires WellFormed(keys, vals) && j < |keys| && keys[j] != None && !IsSection(keys[j].value)
    ensures vals[j] != None
    ensures var (k, v) := (keys[j].value, vals[j].value);
            Printable(KeyOf(k), v) && OneLine(k) && OneLine(v) && |PrintEntry(KeyOf(k), v)| < LINE_ROOM
  {
    hide Printable, KeyOf, OneLine, PrintEntry, IsSection, SectionOf, SectionsFrom, EmptyFirst, GoodSection;
    assert GoodEntry(keys[j].value, vals[j]);
  }

  lemma EntryLineParts(k: string, s: string, v: Text, rest: string)
    requires Belongs(k, s) && v != None
    ensures EntryLine(k, s, v) + rest == PrintEntry(k[|s| + 1..], v.value) + ("\n" + rest)
  {
    hide PrintEntry;
  }

  /** All entries of section s from slot j on are read back, and nothing else. */
  lemma {:induction false} EntriesLoaded(keys: seq<Text>, vals: seq<Text>, s: string, j: nat, rest: string, st: Loader)
    returns (st': Loader)
    requires WellFormed(keys, vals) && j <= |keys| && IsSection(s) && st.section == s
    requires Clean(st, MapOf(keys, vals))
    ensures Clean(st', MapOf(keys, vals)) && st'.section == s && st.dict.Keys <= st'.dict.Keys
    ensures Loads(EntriesFrom(keys, vals, s, j) + rest, st) == Loads(rest, st')
    ensures Covers(st'.dict, keys, s, j)
    decreases |keys| - j
  {
    hide *;
    WellFormedLengths(keys, vals);
    if j == |keys| {
      st' := st;
      NoEntries(keys, vals, s, rest);
    } else if keys[j] != None && Belongs(keys[j].value, s) {
      var k := keys[j].value;
      var more := EntriesFrom(keys, vals, s, j + 1) + rest;
      var mid := st.(dict := st.dict[k := vals[j]]);
      CleanStep(keys, vals, j, st);
      st' := EntriesLoaded(keys, vals, s, j + 1, rest, mid);
      EntryLoaded(keys, vals, s, j, more, st);
      EntriesHere(keys, vals, s, j, rest);
      assert k in mid.dict.Keys;
    } else {
      EntriesElsewhere(keys, vals, s, j);
      st' := EntriesLoaded(keys, vals, s, j + 1, rest, st);
    }
    CoversStep(st'.dict, keys, s, j);
  }

  lemma CleanParts(st: Loader, m: map<string, Text>)
    requires Clean(st, m)
    ensures st.prefix == ""
  {
  }

  lemma CleanStep(keys: seq<Text>, vals: seq<Text>, j: nat, st: Loader)
    requires |keys| == |vals| && DistinctKeys(keys) && j < |keys| && keys[j] != None
    requires Clean(st, MapOf(keys, vals))
    ensures Clean(st.(dict := st.dict[keys[j].value := vals[j]]), MapOf(keys, vals)) && st.prefix == ""
  {
    hide MapOf;
    SlotsOf(keys, vals);
  }

  lemma CoversStep(d: map<string, Text>, keys: seq<Text>, s: string, j: nat)
    requires j < |keys| ==> Covers(d, keys, s, j + 1)
    requires j < |keys| && keys[j] != None && Belongs(keys[j].value, s) ==> keys[j].value in d
    ensures Covers(d, keys, s, j)
  {
    hide Belongs;
  }

  lemma NoEntries(keys: seq<Text>, vals: seq<Text>, s: string, rest: string)
    requires |keys| == |vals|
    ensures EntriesFrom(keys, vals, s, |keys|) + rest == rest
  {
  }

  lemma EntriesHere(keys: seq<Text>, vals: seq<Text>, s: string, j: nat, rest: string)
    requires |keys| == |vals| && j < |keys| && keys[j] != None && Belongs(keys[j].value, s)
    ensures EntriesFrom(keys, vals, s, j) + rest
         == EntryLine(keys[j].value, s, vals[j]) + (EntriesFrom(keys, vals, s, j + 1) + rest)
  {
    hide EntryLine, Belongs;
  }

  lemma EntriesElsewhere(keys: seq<Text>, vals: seq<Text>, s: string, j: nat)
    requires |keys| == |vals| && j < |keys| && (keys[j] == None || !Belongs(keys[j].value, s))
    ensures EntriesFrom(keys, vals, s, j) == EntriesFrom(keys, vals, s, j + 1)
  {
    hide Belongs;
  }

  lemma GoodSectionFound(keys: seq<Text>, s: string)
    requires GoodSection(s, None) && Some(s) in keys
    ensures Some(Lower(Cut(s, 1024))) in keys
  {
    assert Cut(s, 1024) == s;
  }

  lemma SectionShapeOf(keys: seq<Text>, vals: seq<Text>, s: string, rest: string)
    requires |keys| == |vals| && Some(Lower(Cut(s, 1024))) in keys
    ensures SectionText(keys, vals, s) + rest
         == "\n" + (PrintSection(s) + ("\n" + (EntriesFrom(keys, vals, s, 0) + ("\n" + rest))))
  {
    hide PrintSection, Lower, Cut, EntriesFrom;
    var (p, e) := (PrintSection(s), EntriesFrom(keys, vals, s, 0));
    SixParts(p, e, rest);
  }

  lemma SixParts(p: string, e: string, rest: string)
    ensures ("\n" + (p + "\n" + (e + "\n"))) + rest == "\n" + (p + ("\n" + (e + ("\n" + rest))))
  {
  }

  /** One section is read back: its name and every entry that belongs to it. */
  lemma SectionLoaded(keys: seq<Text>, vals: seq<Text>, s: string, rest: string, st: Loader)
    returns (st': Loader)
    requires WellFormed(keys, vals) && Some(s) in keys && IsSection(s) && (s == "" ==> st.section == "")
    requires Clean(st, MapOf(keys, vals))
    ensures Clean(st', MapOf(keys, vals)) && st.dict.Keys <= st'.dict.Keys
    ensures Loads(SectionText(keys, vals, s) + rest, st) == Loads(rest, st')
    ensures s in st'.dict && Covers(st'.dict, keys, s, 0)
  {
    hide Loads, MapOf, EntriesFrom, SectionText, PrintSection, GoodSection, GoodEntry, Belongs, Covers;
    var i :| 0 <= i < |keys| && keys[i] == Some(s);
    GoodSectionParts(s, vals[i]);
    SlotsOf(keys, vals);
    GoodSectionFound(keys, s);
    var mid := st.(section := s, dict := st.dict[s := None]);
    st' := EntriesLoaded(keys, vals, s, 0, "\n" + rest, mid);
    SectionShapeOf(keys, vals, s, rest);
    var tail := EntriesFrom(keys, vals, s, 0) + ("\n" + rest);
    BlankLine(PrintSection(s) + ("\n" + tail), st);
    SectionLine(s, tail, st);
    BlankLine(rest, st');
    assert s in mid.dict.Keys;
  }

  /** Every section name in a list is read back, with all its entries. */
  lemma {:induction false} SectionsLoaded(keys: seq<Text>, vals: seq<Text>, secs: seq<string>, rest: string, st: Loader)
    returns (st': Loader)
    requires WellFormed(keys, vals) && (forall s | s in secs :: Some(s) in keys && IsSection(s))
    requires Clean(st, MapOf(keys, vals)) && (secs != [] ==> "" !in secs[1..] && (secs[0] == "" ==> st.section == ""))
    ensures Clean(st', MapOf(keys, vals)) && st.dict.Keys <= st'.dict.Keys
    ensures Loads(SectionTexts(keys, vals, secs) + rest, st) == Loads(rest, st')
    ensures forall s | s in secs :: s in st'.dict && Covers(st'.dict, keys, s, 0)
  {
    hide Loads, MapOf, SectionText, WellFormed, Belongs, IsSection, Clean, Covers;
    WellFormedLengths(keys, vals);
    CleanParts(st, MapOf(keys, vals));
    if secs == [] {
      st' := st;
      assert "" + rest == rest;
    } else {
      var more := SectionTexts(keys, vals, secs[1..]) + rest;
      var mid := SectionLoaded(keys, vals, secs[0], more, st);
      st' := SectionsLoaded(keys, vals, secs[1..], rest, mid);
      CoversMore(mid.dict, st'.dict, keys, secs[0]);
      assert SectionTexts(keys, vals, secs) + rest == SectionText(keys, vals, secs[0]) + more;
      assert forall s | s in secs :: s == secs[0] || s in secs[1..];
    }
  }

  lemma CoversMore(d: map<string, Text>, d': map<string, Text>, keys: seq<Text>, s: string)
    requires Covers(d, keys, s, 0) && d.Keys <= d'.Keys
    ensures Covers(d', keys, s, 0)
  {
    hide Belongs;
  }

  lemma WellFormedLengths(keys: seq<Text>, vals: seq<Text>)
    requires WellFormed(keys, vals)
    ensures |keys| == |vals| && DistinctKeys(keys)
  {
  }

  // ---- The whole file

  lemma {:induction false} SectionsAre(keys: seq<Text>, j: nat)
    requires j <= |keys|
    ensures forall s | s in SectionsFrom(keys, j) :: Some(s) in keys && IsSection(s)
    ensures forall i | j <= i < |keys| && keys[i] != None && IsSection(keys[i].value) ::
              keys[i].value in SectionsFrom(keys, j)
    decreases |keys| - j
  {
    hide IsSection;
    if j < |keys| {
      SectionsAre(keys, j + 1);
    }
  }

  lemma {:induction false} SectionSlot(keys: seq<Text>, j: nat, s: string) returns (i: nat)
    requires j <= |keys| && s in SectionsFrom(keys, j)
    ensures j <= i < |keys| && keys[i] == Some(s)
    decreases |keys| - j
  {
    hide IsSection;
    if keys[j] == Some(s) {
      i := j;
    } else {
      i := SectionSlot(keys, j + 1, s);
    }
  }

  lemma NotLater(keys: seq<Text>, j: nat)
    requires j < |keys| && DistinctKeys(keys) && keys[j] != None
    ensures keys[j].value !in SectionsFrom(keys, j + 1)
  {
    hide IsSection;
    if keys[j].value in SectionsFrom(keys, j + 1) {
      var i := SectionSlot(keys, j + 1, keys[j].value);
    }
  }

  ghost predicate AllDifferent(secs: seq<string>) {
    forall a, b | 0 <= a < b < |secs| :: secs[a] != secs[b]
  }

  /** No section name is listed twice. */
  lemma {:induction false} SectionsDistinct(keys: seq<Text>, j: nat)
    requires j <= |keys| && DistinctKeys(keys)
    ensures AllDifferent(SectionsFrom(keys, j))
    decreases |keys| - j
  {
    hide IsSection, AllDifferent;
    NoneDifferent();
    if j < |keys| {
      SectionsDistinct(keys, j + 1);
      if keys[j] != None && IsSection(keys[j].value) {
        var (s, more) := (keys[j].value, SectionsFrom(keys, j + 1));
        NotLater(keys, j);
        assert SectionsFrom(keys, j) == [s] + more;
        DistinctFront(s, more);
      }
    }
  }

  lemma DistinctFront(s: string, more: seq<string>)
    requires s !in more && AllDifferent(more)
    ensures AllDifferent([s] + more)
  {
  }

  lemma NoneDifferent()
    ensures AllDifferent([])
  {
  }

  lemma WellFormedFirst(keys: seq<Text>, vals: seq<Text>)
    requires WellFormed(keys, vals)
    ensures EmptyFirst(SectionsFrom(keys, 0))
  {
    hide EmptyFirst, SectionsFrom;
  }

  lemma {:induction false} NothingPlain(keys: seq<Text>, vals: seq<Text>, j: nat)
    requires |keys| == |vals| && j <= |keys| && forall i | j <= i < |keys| :: keys[i] == None
    ensures PlainFrom(keys, vals, j) == ""
    decreases |keys| - j
  {
    if j < |keys| {
      NothingPlain(keys, vals, j + 1);
    }
  }

  /** Every occupied slot is a section, or belongs to one. */
  lemma SlotCovered(keys: seq<Text>, vals: seq<Text>, i: nat)
    requires WellFormed(keys, vals) && i < |keys| && keys[i] != None
    ensures var (k, secs) := (keys[i].value, SectionsFrom(keys, 0));
            k in secs || (SectionOf(k) in secs && Belongs(k, SectionOf(k)))
  {
    hide GoodSection, GoodEntry, SectionOf, SectionsFrom;
    SectionsAre(keys, 0);
    var k := keys[i].value;
    if !IsSection(k) {
      BelongsTo(k);
      var t :| 0 <= t < |keys| && keys[t] == Some(SectionOf(k));
      assert IsSection(keys[t].value);
    }
  }

  /** Loading the text of a dumped dictionary gives the same map back. */
  lemma LoadUndoesDump(keys: seq<Text>, vals: seq<Text>)
    requires WellFormed(keys, vals)
    ensures LoadText(DumpText(keys, vals)) == Some(MapOf(keys, vals))
  {
    hide *;
    WellFormedLengths(keys, vals);
    var (m, secs) := (MapOf(keys, vals), SectionsFrom(keys, 0));
    SlotsOf(keys, vals);
    SectionsAre(keys, 0);
    DumpedIs(keys, vals);
    if secs == [] {
      forall i | 0 <= i < |keys|
        ensures keys[i] == None
      {
        if keys[i] != None {
          SlotCovered(keys, vals, i);
        }
      }
      NothingPlain(keys, vals, 0);
      assert m == map[];
      NothingLoaded();
    } else {
      SectionsDistinct(keys, 0);
      WellFormedFirst(keys, vals);
      OnlyFirstEmpty(secs);
      StartClean(m);
      var st := SectionsLoaded(keys, vals, secs, "\n", START);
      CleanIs(st, m);
      EndOfDump(st);
      forall k | k in m
        ensures k in st.dict
      {
        var i :| 0 <= i < |keys| && keys[i] == Some(k);
        SlotCovered(keys, vals, i);
        if k !in secs {
          CoversSlot(st.dict, keys, SectionOf(k), i);
        }
      }
      assert st.dict == m;
      LoadedIs(SectionTexts(keys, vals, secs) + "\n", st);
    }
  }

  lemma DumpedIs(keys: seq<Text>, vals: seq<Text>)
    requires |keys| == |vals|
    ensures var secs := SectionsFrom(keys, 0);
            DumpText(keys, vals) == if secs == [] then PlainFrom(keys, vals, 0) else SectionTexts(keys, vals, secs) + "\n"
  {
    hide SectionsFrom, PlainFrom, SectionTexts;
  }

  lemma NothingLoaded()
    ensures LoadText("") == Some(map[])
  {
  }

  lemma OnlyFirstEmpty(secs: seq<string>)
    requires secs != [] && EmptyFirst(secs) && AllDifferent(secs)
    ensures "" !in secs[1..]
  {
    assert forall a | 0 <= a < |secs[1..]| :: secs[1..][a] == secs[a + 1];
  }

  lemma StartClean(m: map<string, Text>)
    ensures Clean(START, m) && START.prefix == "" && START.section == "" && |START.prefix| < LINE_ROOM
  {
  }

  lemma CleanIs(st: Loader, m: map<string, Text>)
    requires Clean(st, m)
    ensures st.prefix == "" && !st.errs && forall k | k in st.dict :: k in m && st.dict[k] == m[k]
  {
  }

  lemma EndOfDump(st: Loader)
    requires st.prefix == ""
    ensures Loads("\n", st) == Some(st)
  {
    BlankLine("", st);
    assert "\n" + "" == "\n";
  }

  lemma CoversSlot(d: map<string, Text>, keys: seq<Text>, s: string, i: nat)
    requires Covers(d, keys, s, 0) && i < |keys| && keys[i] != None && Belongs(keys[i].value, s)
    ensures keys[i].value in d
  {
    hide Belongs;
  }

  lemma LoadedIs(text: string, st: Loader)
    requires Loads(text, START) == Some(st) && !st.errs
    ensures LoadText(text) == Some(st.dict)
  {
    hide Loads;
  }
}
