/**
 Exactly which dictionaries come back when utils/iniparser.c dumps and loads them.
 */
module IniRoundTrip {
  import opened CType
  import opened Options
  import opened IniLine
  import opened IniFile
  import opened Dictionaries

  // ---- Lines that are read as one entry

  /** The line is kept for the next one. */
  predicate Continued(line: string) {
    var t := TrimRight(line);
    t != "" && t[|t| - 1] == '\\'
  }

  predicate SectionLike(line: string) {
    var t := Strip(TrimRight(line));
    t != "" && t[0] == '[' && t[|t| - 1] == ']'
  }

  /** A single line that fits the buffer, is not continued and does not look like a section. */
  predicate EntryLike(line: string) {
    OneLine(line) && |line| < LINE_ROOM && !Continued(line) && !SectionLike(line)
  }

  /** What `fprintf` prints for a value of a section's entry. */
  function Printed(v: Text): string {
    if v == None then "" else v.value
  }

  /** Every line of the dump is read as what it is printed for, as an entry or as a section. */
  ghost predicate LinesRead(keys: seq<Text>, vals: seq<Text>) {
    && |keys| == |vals| && DistinctKeys(keys)
    && (forall i | 0 <= i < |keys| && keys[i] != None ::
          SlotRead(keys[i].value, vals[i], SectionsFrom(keys, 0) == []))
  }

  predicate SlotRead(k: string, v: Text, plain: bool) {
    && OneLine(k)
    && if IsSection(k) then |PrintSection(k)| < LINE_ROOM
       else EntryLike(if plain then PlainEntry(k, v) else PrintEntry(KeyOf(k), Printed(v)))
  }

  lemma LoadedIs(text: string, section: string)
    ensures if Continued(text) then LoadedLine(text, section).Continues?
            else LoadedLine(text, section) == Parsed(ParseLine(TrimRight(text), section))
  {
    hide TrimRight, ParseLine;
  }

  /** What an entry-like line can be read as. */
  lemma EntryLikeRead(line: string, section: string)
    requires EntryLike(line)
    ensures LoadedLine(line, section).Parsed? && !LoadedLine(line, section).result.Section?
    ensures LoadedLine(line, section).result.Value? ==> PrintableKey(LoadedLine(line, section).result.key)
  {
    hide TrimRight, Strip, ParseLine, OneLine, PrintableKey;
    LoadedIs(line, section);
    var t := TrimRight(line);
    if ParseLine(t, section).Value? {
      KeyShape(t, section);
    }
    NotSection(t, section);
  }

  lemma NotSection(t: string, section: string)
    requires var line := Strip(t); !(line != "" && line[0] == '[' && line[|line| - 1] == ']')
    ensures !ParseLine(t, section).Section?
  {
    hide Strip, ScanQuoted, ScanPlain, ScanMarks, ScanEquals, Cleaned, ScanSection, EmptyQuotes;
  }

  /** An entry-like line printed for a printable key is read as an entry with that key. */
  lemma PaddedValue(k: string, pad: nat, v: string, section: string)
    requires PrintableKey(k) && EntryLike(PrintPadded(k, pad, v))
    ensures LoadedLine(PrintPadded(k, pad, v), section) == Parsed(Value(k, ValueOf(Strip(v))))
  {
    KeyFacts(k);
    LikeFacts(PrintPadded(k, pad, v));
    NoSectionLook(k, pad, v);
    hide *;
    LoadedIs(PrintPadded(k, pad, v), section);
    PaddedParsed(k, pad, v, section);
  }

  lemma LikeFacts(line: string)
    requires EntryLike(line)
    ensures !Continued(line) && !SectionLike(line) && OneLine(line) && |line| < LINE_ROOM
  {
    hide Continued, SectionLike, OneLine;
  }

  lemma NoSectionLook(k: string, pad: nat, v: string)
    requires k != "" && Stripped(k) && !SectionLike(PrintPadded(k, pad, v))
    ensures !LooksLikeSection(k, Strip(v))
  {
    if LooksLikeSection(k, Strip(v)) {
      LooksFacts(k, Strip(v));
      LastByteIs(Strip(v));
      hide *;
      PrintedTrimmed(k, pad, v);
      TrimmedEnds(k, pad, v);
      LooksSection(PrintPadded(k, pad, v), Trimmed(k, pad, v));
    }
  }

  lemma LastByteIs(w: string)
    requires w != ""
    ensures LastByte(w) == w[|w| - 1]
  {
  }

  lemma LooksSection(line: string, t: string)
    requires TrimRight(line) == t && Strip(t) == t && t != "" && t[0] == '[' && t[|t| - 1] == ']'
    ensures SectionLike(line)
  {
    hide TrimRight, Strip;
  }

  lemma EntryValue(k: string, v: string, section: string)
    requires PrintableKey(k) && EntryLike(PrintEntry(k, v))
    ensures LoadedLine(PrintEntry(k, v), section) == Parsed(Value(k, ValueOf(Strip(v))))
  {
    hide *;
    EntryIs(k, v);
    PaddedValue(k, PadOf(k), v, section);
  }

  // ---- The load as a fold over the lines of the dump

  function ReadLine(st: Loader, line: string): Loader {
    TakeText(st, line + "\n")
  }

  /** Reading the entries of section s in slots j and up. */
  function ReadEntries(keys: seq<Text>, vals: seq<Text>, s: string, j: nat, st: Loader): Loader
    requires |keys| == |vals| && j <= |keys|
    decreases |keys| - j
  {
    if j == |keys| then st
    else if keys[j] != None && Belongs(keys[j].value, s) then
      ReadEntries(keys, vals, s, j + 1, ReadLine(st, PrintEntry(keys[j].value[|s| + 1..], Printed(vals[j]))))
    else ReadEntries(keys, vals, s, j + 1, st)
  }

  predicate Found(keys: seq<Text>, s: string) {
    Some(Lower(Cut(s, 1024))) in keys
  }

  function ReadSection(keys: seq<Text>, vals: seq<Text>, s: string, st: Loader): Loader
    requires |keys| == |vals|
  {
    if Found(keys, s) then ReadEntries(keys, vals, s, 0, ReadLine(st, PrintSection(s))) else st
  }

  function ReadSections(keys: seq<Text>, vals: seq<Text>, secs: seq<string>, st: Loader): Loader
    requires |keys| == |vals|
  {
    if secs == [] then st else ReadSections(keys, vals, secs[1..], ReadSection(keys, vals, secs[0], st))
  }

  /** The entry lines of a dump with sections. */
  lemma EntryLines(keys: seq<Text>, vals: seq<Text>, j: nat, s: string)
    requires LinesRead(keys, vals) && SectionsFrom(keys, 0) != []
    requires j < |keys| && keys[j] != None && Belongs(keys[j].value, s) && IsSection(s)
    ensures var k := keys[j].value;
            k[|s| + 1..] == KeyOf(k) && k == s + ":" + KeyOf(k)
            && EntryLike(PrintEntry(KeyOf(k), Printed(vals[j]))) && PrintEntry(KeyOf(k), Printed(vals[j])) != ""
  {
    SplitKey(keys[j].value, s);
    assert |PrintEntry(KeyOf(keys[j].value), Printed(vals[j]))| >= 3;
    hide EntryLike, PrintEntry, KeyOf, SectionsFrom, Belongs;
    assert SlotRead(keys[j].value, vals[j], SectionsFrom(keys, 0) == []);
  }

  lemma ReadPrefix(line: string, st: Loader)
    requires st.prefix == "" && LoadedLine(line, st.section).Parsed?
    ensures ReadLine(st, line) == Apply(st, LoadedLine(line, st.section).result) && ReadLine(st, line).prefix == ""
  {
    hide *;
    ReadLineIs(st, line);
    NewlineTrimmed(line, st.section);
    TakesResult(st, line + "\n", LoadedLine(line, st.section).result);
    ApplyPrefix(st, LoadedLine(line, st.section).result);
  }

  lemma ReadLineIs(st: Loader, line: string)
    ensures ReadLine(st, line) == TakeText(st, line + "\n")
  {
  }

  lemma ApplyPrefix(st: Loader, r: LineResult)
    ensures Apply(st, r).prefix == st.prefix
  {
  }

  lemma {:induction false} EntriesFold(keys: seq<Text>, vals: seq<Text>, s: string, j: nat, rest: string, st: Loader)
    requires LinesRead(keys, vals) && SectionsFrom(keys, 0) != [] && IsSection(s) && j <= |keys| && st.prefix == ""
    ensures ReadEntries(keys, vals, s, j, st).prefix == ""
    ensures Loads(EntriesFrom(keys, vals, s, j) + rest, st) == Loads(rest, ReadEntries(keys, vals, s, j, st))
    decreases |keys| - j
  {
    hide Loads, LinesRead, SectionsFrom, EntriesFrom, ReadLine, EntryLike, PrintEntry, IsSection, Belongs, KeyOf;
    LinesReadFacts(keys, vals);
    if j == |keys| {
      NoEntries(keys, vals, s, rest);
    } else if keys[j] != None && Belongs(keys[j].value, s) {
      EntryLines(keys, vals, j, s);
      var line := PrintEntry(KeyOf(keys[j].value), Printed(vals[j]));
      var more := EntriesFrom(keys, vals, s, j + 1) + rest;
      OneLineFold(line, more, st);
      EntriesHere(keys, vals, s, j, rest);
      EntryLineIs(keys[j].value, s, vals[j], more);
      EntriesFold(keys, vals, s, j + 1, rest, ReadLine(st, line));
    } else {
      EntriesElsewhere(keys, vals, s, j);
      EntriesFold(keys, vals, s, j + 1, rest, st);
    }
  }

  lemma LinesReadFacts(keys: seq<Text>, vals: seq<Text>)
    requires LinesRead(keys, vals)
    ensures |keys| == |vals| && DistinctKeys(keys)
  {
  }

  lemma EntryLineIs(k: string, s: string, v: Text, more: string)
    requires Belongs(k, s)
    ensures EntryLine(k, s, v) + more == PrintEntry(k[|s| + 1..], Printed(v)) + ("\n" + more)
  {
    hide PrintEntry;
  }

  lemma OneLineFold(line: string, more: string, st: Loader)
    requires EntryLike(line) && line != "" && st.prefix == ""
    ensures Loads(line + ("\n" + more), st) == Loads(more, ReadLine(st, line)) && ReadLine(st, line).prefix == ""
  {
    hide Loads, TakeText, OneLine, Continued, SectionLike;
    LoadsLine(line, more, st);
    EntryLikeRead(line, st.section);
    ReadPrefix(line, st);
  }

  /** Every section line of a dump fits. */
  lemma SectionLineFits(keys: seq<Text>, vals: seq<Text>, s: string)
    requires LinesRead(keys, vals) && Some(s) in keys && IsSection(s)
    ensures OneLine(s) && OneLine(PrintSection(s)) && PrintSection(s) != "" && |PrintSection(s)| < LINE_ROOM
  {
    hide SectionsFrom, EntryLike, IsSection;
    var i :| 0 <= i < |keys| && keys[i] == Some(s);
    assert SlotRead(keys[i].value, vals[i], SectionsFrom(keys, 0) == []);
  }

  /** A section line is read as the name it leaves in the buffer. */
  lemma HeadRead(keys: seq<Text>, vals: seq<Text>, s: string, st: Loader)
    requires LinesRead(keys, vals) && Some(s) in keys && IsSection(s) && st.prefix == ""
    ensures ReadLine(st, PrintSection(s)) == Apply(st, Section(ReadName(s, st.section)))
    ensures ReadLine(st, PrintSection(s)).prefix == ""
  {
    hide *;
    SectionParsed(s, st.section);
    ReadPrefix(PrintSection(s), st);
  }

  lemma {:induction false} SectionsFold(keys: seq<Text>, vals: seq<Text>, secs: seq<string>, rest: string, st: Loader)
    requires LinesRead(keys, vals) && SectionsFrom(keys, 0) != [] && st.prefix == ""
    requires forall s | s in secs :: Some(s) in keys && IsSection(s)
    ensures ReadSections(keys, vals, secs, st).prefix == ""
    ensures Loads(SectionTexts(keys, vals, secs) + rest, st) == Loads(rest, ReadSections(keys, vals, secs, st))
  {
    hide Loads, LinesRead, SectionsFrom, SectionText, IsSection, ReadSection;
    LinesReadFacts(keys, vals);
    if secs == [] {
      assert "" + rest == rest;
    } else {
      var more := SectionTexts(keys, vals, secs[1..]) + rest;
      SectionFold(keys, vals, secs[0], more, st);
      SectionsFold(keys, vals, secs[1..], rest, ReadSection(keys, vals, secs[0], st));
      assert SectionTexts(keys, vals, secs) + rest == SectionText(keys, vals, secs[0]) + more;
    }
  }

  lemma SectionFold(keys: seq<Text>, vals: seq<Text>, s: string, rest: string, st: Loader)
    requires LinesRead(keys, vals) && SectionsFrom(keys, 0) != [] && st.prefix == "" && Some(s) in keys && IsSection(s)
    ensures ReadSection(keys, vals, s, st).prefix == ""
    ensures Loads(SectionText(keys, vals, s) + rest, st) == Loads(rest, ReadSection(keys, vals, s, st))
  {
    hide Loads, LinesRead, SectionsFrom, EntriesFrom, ReadEntries, ReadLine, IsSection, PrintSection, Lower, Cut,
         OneLine;
    LinesReadFacts(keys, vals);
    if Found(keys, s) {
      SectionLineFits(keys, vals, s);
      HeadRead(keys, vals, s, st);
      SectionShapeOf(keys, vals, s, rest);
      var mid := ReadLine(st, PrintSection(s));
      var tail := EntriesFrom(keys, vals, s, 0) + ("\n" + rest);
      BlankLine(PrintSection(s) + ("\n" + tail), st);
      HeadFold(keys, vals, s, tail, st);
      EntriesFold(keys, vals, s, 0, "\n" + rest, mid);
      BlankLine(rest, ReadEntries(keys, vals, s, 0, mid));
    } else {
      assert SectionText(keys, vals, s) + rest == rest;
    }
  }

  lemma HeadFold(keys: seq<Text>, vals: seq<Text>, s: string, more: string, st: Loader)
    requires LinesRead(keys, vals) && Some(s) in keys && IsSection(s) && st.prefix == ""
    ensures Loads(PrintSection(s) + ("\n" + more), st) == Loads(more, ReadLine(st, PrintSection(s)))
    ensures ReadLine(st, PrintSection(s)).prefix == ""
  {
    hide *;
    SectionLineFits(keys, vals, s);
    HeadRead(keys, vals, s, st);
    ReadLineIs(st, PrintSection(s));
    LoadsLine(PrintSection(s), more, st);
  }

  // ---- What holds after any number of lines

  /** A name as it can be in the section buffer. */
  predicate Name(n: string, clean: bool) {
    IsSection(n) && ']' !in n && (clean ==> Stripped(n) && Lower(n) == n)
  }

  /** A key and its value as they can be in the dictionary. */
  predicate Yielded(k: string, v: Text, clean: bool) {
    if IsSection(k) then v == None && Name(k, clean) else v != None && PrintableKey(KeyOf(k))
  }

  ghost predicate Shape(st: Loader, clean: bool) {
    Name(st.section, clean) && forall k | k in st.dict :: Yielded(k, st.dict[k], clean)
  }

  /** No empty name was read, and none will be: a line "[]" leaves a byte of the last name. */
  predicate NoEmpty(st: Loader) {
    st.section != "" && "" !in st.dict
  }

  /** The entry k was read from its own line. */
  predicate OwnLine(k: string, v: Text, secs: seq<string>, m: map<string, Text>) {
    k in m && SectionOf(k) in secs && v == Some(ValueOf(Strip(Printed(m[k]))))
  }

  ghost predicate Exact(st: Loader, s: string, secs: seq<string>, m: map<string, Text>) {
    && st.section == s && s in secs && IsSection(s)
    && forall k | k in st.dict && !IsSection(k) :: OwnLine(k, st.dict[k], secs, m)
  }

  /** What is known of the dictionary that is dumped: nothing; that no name holds a bracket; that
      all names and keys are as the loader leaves them and the first name is not empty; the same
      and that no name but the first is empty. */
  datatype Known = Nothing | Clean | NonEmpty | Normal

  ghost predicate Given(kn: Known, keys: seq<Text>, vals: seq<Text>, secs: seq<string>) {
    && (kn != Nothing ==> forall s | s in secs :: ']' !in s)
    && (kn.NonEmpty? || kn.Normal? ==> NormalKeys(keys, secs))
  }

  ghost predicate NormalKeys(keys: seq<Text>, secs: seq<string>) {
    && (forall s | s in secs :: ']' !in s && Stripped(s) && Lower(s) == s)
    && (forall i | 0 <= i < |keys| && keys[i] != None && !IsSection(keys[i].value) :: PrintableKey(KeyOf(keys[i].value)))
  }

  ghost predicate Kept(kn: Known, st: Loader, s: string, secs: seq<string>, m: map<string, Text>) {
    && st.prefix == "" && Shape(st, kn != Nothing)
    && (kn.NonEmpty? ==> NoEmpty(st))
    && (kn.Normal? ==> Exact(st, s, secs, m))
  }

  // ---- One section line

  lemma ReadNameShape(s: string, cur: string, clean: bool)
    requires IsSection(s) && Name(cur, clean) && (clean ==> ']' !in s)
    ensures Name(ReadName(s, cur), clean)
  {
    var n := Until(s, {']'});
    var x := if n == 0 then cur else s[..n];
    assert ':' !in x && ']' !in x;
    CleanedName(x, |s| + 2);
    if clean {
      CleanName(s, cur);
    }
    hide Until, Cleaned;
  }

  lemma CleanedName(x: string, len: nat)
    requires ':' !in x && ']' !in x
    ensures ':' !in Cleaned(x, len) && ']' !in Cleaned(x, len)
  {
    hide TrimLeft, TrimRight;
    var t := TrimLeft(x);
    assert forall i | 0 <= i < |t| :: t[i] == x[|x| - |t| + i];
    assert ':' !in Strip(x) && ']' !in Strip(x);
    LowerKeeps(Cut(Strip(x), len - 1));
  }

  /** For a name without brackets the buffer holds the name, stripped and lower-cased; the empty
      name leaves the first byte of the last one. */
  lemma CleanName(s: string, cur: string)
    requires ']' !in s && Stripped(cur) && Lower(cur) == cur
    ensures ReadName(s, cur) == if s == "" then Cut(cur, 1) else Lower(Strip(s))
    ensures Stripped(ReadName(s, cur)) && Lower(ReadName(s, cur)) == ReadName(s, cur)
  {
    UntilNone(s, {']'});
    StripStripped(s);
    StripStripped(cur);
    LowerKeeps(Strip(s));
    hide Until, Strip;
    if s == "" {
      assert Cut(cur, 1) == if cur == "" then "" else [cur[0]];
      assert cur != "" ==> Lower(cur)[0] == ToLower(cur[0]);
    } else {
      assert s[..|s|] == s;
    }
  }

  lemma HeadShape(st: Loader, n: string, clean: bool)
    requires Shape(st, clean) && Name(n, clean)
    ensures Shape(Apply(st, Section(n)), clean)
  {
    hide Name;
    assert IsSection(n) by {
      NameIsSection(n, clean);
    }
  }

  lemma NameIsSection(n: string, clean: bool)
    requires Name(n, clean)
    ensures IsSection(n)
  {
  }

  /** A section line keeps what is known; the first one may be empty. */
  lemma HeadKeeps(kn: Known, keys: seq<Text>, vals: seq<Text>, secs: seq<string>, m: map<string, Text>,
                  s: string, st: Loader, t: string, first: bool)
    requires LinesRead(keys, vals) && Given(kn, keys, vals, secs) && s in secs && Some(s) in keys && IsSection(s)
    requires if first then st == START && (kn.NonEmpty? ==> s != "") else Kept(kn, st, t, secs, m) && (kn.Normal? ==> s != "")
    ensures Kept(kn, ReadLine(st, PrintSection(s)), s, secs, m)
  {
    StartShape(kn != Nothing);
    hide LinesRead, Shape, ReadLine, PrintSection, IsSection, Apply, ReadName, Name;
    HeadRead(keys, vals, s, st);
    ShapeName(st, kn != Nothing);
    ReadNameShape(s, st.section, kn != Nothing);
    HeadShape(st, ReadName(s, st.section), kn != Nothing);
    if kn.NonEmpty? || kn.Normal? {
      NormalName(s, st.section);
      HeadApplied(st, ReadName(s, st.section));
    }
  }

  lemma HeadApplied(st: Loader, n: string)
    ensures var r := Apply(st, Section(n)); r.section == n && r.dict == st.dict[n := None]
  {
  }

  lemma StartShape(clean: bool)
    ensures Shape(START, clean) && START.prefix == "" && START.section == "" && START.dict == map[]
  {
  }

  lemma ShapeName(st: Loader, clean: bool)
    requires Shape(st, clean)
    ensures Name(st.section, clean) && (clean ==> Stripped(st.section) && Lower(st.section) == st.section)
  {
  }

  lemma NormalName(s: string, cur: string)
    requires ']' !in s && Stripped(s) && Lower(s) == s && Stripped(cur) && Lower(cur) == cur
    ensures s != "" || cur == "" ==> ReadName(s, cur) == s
    ensures cur != "" ==> ReadName(s, cur) != ""
  {
    hide *;
    CleanName(s, cur);
    StripStripped(s);
    CutOne(cur);
  }

  lemma CutOne(cur: string)
    ensures Cut(cur, 1) == "" <==> cur == ""
  {
  }

  // ---- One entry line

  lemma EntryKeeps(kn: Known, keys: seq<Text>, vals: seq<Text>, secs: seq<string>, j: nat, s: string, st: Loader)
    requires LinesRead(keys, vals) && SectionsFrom(keys, 0) != [] && Given(kn, keys, vals, secs)
    requires j < |keys| && keys[j] != None && Belongs(keys[j].value, s) && IsSection(s)
    requires Kept(kn, st, s, secs, MapOf(keys, vals))
    ensures Kept(kn, ReadLine(st, PrintEntry(keys[j].value[|s| + 1..], Printed(vals[j]))), s, secs, MapOf(keys, vals))
  {
    hide *;
    var k := keys[j].value;
    LinesReadFacts(keys, vals);
    EntryLines(keys, vals, j, s);
    var line := PrintEntry(KeyOf(k), Printed(vals[j]));
    KeptParts(kn, st, s, secs, MapOf(keys, vals));
    EntryLikeRead(line, st.section);
    ReadPrefix(line, st);
    var r := LoadedLine(line, st.section).result;
    EntryShape(st, r, kn != Nothing);
    if kn.NonEmpty? {
      EntryNoEmpty(st, r);
    }
    if kn.Normal? {
      GivenNormal(kn, keys, vals, secs);
      NormalEntry(keys, secs, j, s);
      EntryValue(KeyOf(k), Printed(vals[j]), st.section);
      EntryExact(keys, vals, secs, j, s, st);
    }
    KeptParts(kn, ReadLine(st, line), s, secs, MapOf(keys, vals));
  }

  lemma BelongsLength(k: string, s: string)
    requires Belongs(k, s)
    ensures |s| < |k|
  {
  }

  lemma KeptParts(kn: Known, st: Loader, s: string, secs: seq<string>, m: map<string, Text>)
    ensures Kept(kn, st, s, secs, m) <==>
              && st.prefix == "" && Shape(st, kn != Nothing)
              && (kn.NonEmpty? ==> NoEmpty(st))
              && (kn.Normal? ==> Exact(st, s, secs, m))
  {
    hide Shape, NoEmpty, Exact;
  }

  lemma GivenNormal(kn: Known, keys: seq<Text>, vals: seq<Text>, secs: seq<string>)
    requires Given(kn, keys, vals, secs) && kn.Normal?
    ensures NormalKeys(keys, secs)
  {
    hide NormalKeys;
  }

  lemma NormalEntry(keys: seq<Text>, secs: seq<string>, j: nat, s: string)
    requires NormalKeys(keys, secs) && j < |keys| && keys[j] != None && Belongs(keys[j].value, s) && IsSection(s)
    ensures PrintableKey(KeyOf(keys[j].value))
  {
    SplitKey(keys[j].value, s);
    hide KeyOf, PrintableKey;
  }

  lemma EntryShape(st: Loader, r: LineResult, clean: bool)
    requires Shape(st, clean) && !r.Section? && (r.Value? ==> PrintableKey(r.key))
    ensures Shape(Apply(st, r), clean)
  {
    if r.Value? {
      var k := st.section + ":" + r.key;
      NameIsSection(st.section, clean);
      JoinedKey(st.section, r.key);
      hide Name, PrintableKey, KeyOf, IsSection;
    }
  }

  lemma JoinedKey(s: string, k: string)
    requires IsSection(s)
    ensures !IsSection(s + ":" + k) && KeyOf(s + ":" + k) == k && SectionOf(s + ":" + k) == s
  {
    var x := s + ":" + k;
    assert x[|s|] == ':' && x[..|s|] == s;
    SplitKey(x, s);
    assert x[|s| + 1..] == k;
    hide KeyOf, SectionOf;
  }

  lemma EntryNoEmpty(st: Loader, r: LineResult)
    requires NoEmpty(st) && !r.Section?
    ensures NoEmpty(Apply(st, r))
  {
  }

  lemma EntryExact(keys: seq<Text>, vals: seq<Text>, secs: seq<string>, j: nat, s: string, st: Loader)
    requires |keys| == |vals| && DistinctKeys(keys) && j < |keys| && keys[j] != None && Belongs(keys[j].value, s)
    requires Exact(st, s, secs, MapOf(keys, vals))
    ensures Exact(Apply(st, Value(KeyOf(keys[j].value), ValueOf(Strip(Printed(vals[j]))))), s, secs, MapOf(keys, vals))
  {
    hide *;
    var k := keys[j].value;
    SlotsOf(keys, vals);
    ExactName(st, s, secs, MapOf(keys, vals));
    SplitKey(k, s);
    ApplyValue(st, KeyOf(k), ValueOf(Strip(Printed(vals[j]))));
    ExactStep(st, s, secs, MapOf(keys, vals), k);
  }

  lemma ExactName(st: Loader, s: string, secs: seq<string>, m: map<string, Text>)
    requires Exact(st, s, secs, m)
    ensures st.section == s && s in secs && IsSection(s)
  {
    hide IsSection, OwnLine;
  }

  lemma ExactStep(st: Loader, s: string, secs: seq<string>, m: map<string, Text>, k: string)
    requires Exact(st, s, secs, m) && k in m && SectionOf(k) == s
    ensures Exact(st.(dict := st.dict[k := Some(ValueOf(Strip(Printed(m[k]))))]), s, secs, m)
  {
    hide IsSection, SectionOf, ValueOf, Strip, Printed;
  }

  // ---- All lines

  lemma {:induction false} EntriesKeep(kn: Known, keys: seq<Text>, vals: seq<Text>, secs: seq<string>, s: string,
                                       j: nat, st: Loader)
    requires LinesRead(keys, vals) && SectionsFrom(keys, 0) != [] && Given(kn, keys, vals, secs)
    requires j <= |keys| && IsSection(s) && Kept(kn, st, s, secs, MapOf(keys, vals))
    ensures Kept(kn, ReadEntries(keys, vals, s, j, st), s, secs, MapOf(keys, vals))
    decreases |keys| - j
  {
    hide LinesRead, SectionsFrom, Given, MapOf, Kept, ReadLine, Belongs, IsSection, PrintEntry;
    LinesReadFacts(keys, vals);
    if j < |keys| {
      if keys[j] != None && Belongs(keys[j].value, s) {
        BelongsLength(keys[j].value, s);
        EntryKeeps(kn, keys, vals, secs, j, s, st);
        EntriesKeep(kn, keys, vals, secs, s, j + 1, ReadLine(st, PrintEntry(keys[j].value[|s| + 1..], Printed(vals[j]))));
      } else {
        EntriesKeep(kn, keys, vals, secs, s, j + 1, st);
      }
    }
  }

  /** A name in the form the loader leaves it is found, so that its section is printed. */
  lemma NormalFound(keys: seq<Text>, vals: seq<Text>, s: string)
    requires LinesRead(keys, vals) && Some(s) in keys && IsSection(s) && Lower(s) == s
    ensures Found(keys, s)
  {
    SectionLineFits(keys, vals, s);
    assert |s| < 1024;
    hide LinesRead, OneLine;
  }

  lemma SectionKeeps(kn: Known, keys: seq<Text>, vals: seq<Text>, secs: seq<string>, s: string, st: Loader,
                     t: string, first: bool)
    requires LinesRead(keys, vals) && SectionsFrom(keys, 0) != [] && Given(kn, keys, vals, secs)
    requires s in secs && Some(s) in keys && IsSection(s)
    requires if first then st == START && (kn.NonEmpty? ==> s != "")
             else Kept(kn, st, t, secs, MapOf(keys, vals)) && (kn.Normal? ==> s != "")
    ensures Kept(kn, ReadSection(keys, vals, s, st), s, secs, MapOf(keys, vals))
  {
    StartShape(kn != Nothing);
    hide LinesRead, SectionsFrom, MapOf, Shape, NoEmpty, Exact, ReadLine, IsSection, PrintSection, Found, Lower,
         Stripped, PrintableKey, KeyOf;
    LinesReadFacts(keys, vals);
    if Found(keys, s) {
      HeadKeeps(kn, keys, vals, secs, MapOf(keys, vals), s, st, t, first);
      EntriesKeep(kn, keys, vals, secs, s, 0, ReadLine(st, PrintSection(s)));
    } else if kn.NonEmpty? || kn.Normal? {
      NormalFound(keys, vals, s);
      assert false;
    }
  }

  lemma {:induction false} SectionsKeep(kn: Known, keys: seq<Text>, vals: seq<Text>, secs: seq<string>, n: nat, st: Loader)
    returns (t: string)
    requires LinesRead(keys, vals) && SectionsFrom(keys, 0) != [] && Given(kn, keys, vals, secs) && n <= |secs|
    requires forall s | s in secs :: Some(s) in keys && IsSection(s)
    requires if n == 0 then st == START else exists t :: Kept(kn, st, t, secs, MapOf(keys, vals))
    requires secs != [] ==> (kn.NonEmpty? ==> secs[0] != "") && (kn.Normal? ==> "" !in secs[1..])
    ensures |secs| > 0 ==> Kept(kn, ReadSections(keys, vals, secs[n..], st), t, secs, MapOf(keys, vals))
    decreases |secs| - n
  {
    hide LinesRead, SectionsFrom, Given, MapOf, Kept, ReadSection, IsSection;
    LinesReadFacts(keys, vals);
    t := "";
    if n < |secs| {
      var was: string := "";
      if n > 0 {
        was :| Kept(kn, st, was, secs, MapOf(keys, vals));
        assert secs[1..][n - 1] == secs[n];
      }
      SectionKeeps(kn, keys, vals, secs, secs[n], st, was, n == 0);
      t := SectionsKeep(kn, keys, vals, secs, n + 1, ReadSection(keys, vals, secs[n], st));
      assert secs[n..][1..] == secs[n + 1..];
    } else if n > 0 {
      t :| Kept(kn, st, t, secs, MapOf(keys, vals));
      assert secs[n..] == [];
    }
  }

  // ---- A dump with sections

  /** What loading the dump ends with. */
  lemma DumpFold(keys: seq<Text>, vals: seq<Text>)
    requires LinesRead(keys, vals) && SectionsFrom(keys, 0) != []
    ensures var st := ReadSections(keys, vals, SectionsFrom(keys, 0), START);
            LoadText(DumpText(keys, vals)) == if st.errs then None else Some(st.dict)
  {
    hide LinesRead, Loads, SectionTexts, ReadSections, SectionsFrom, IsSection, PlainFrom;
    LinesReadFacts(keys, vals);
    var secs := SectionsFrom(keys, 0);
    var st := ReadSections(keys, vals, secs, START);
    SectionsAre(keys, 0);
    SectionsFold(keys, vals, secs, "\n", START);
    BlankLine("", st);
    assert "\n" + "" == "\n";
    LoadsNothing(st);
  }

  lemma LoadsNothing(st: Loader)
    requires st.prefix == ""
    ensures Loads("", st) == Some(st)
  {
  }

  lemma EndKept(kn: Known, keys: seq<Text>, vals: seq<Text>) returns (t: string)
    requires LinesRead(keys, vals) && SectionsFrom(keys, 0) != [] && Given(kn, keys, vals, SectionsFrom(keys, 0))
    requires var secs := SectionsFrom(keys, 0); (kn.NonEmpty? ==> secs[0] != "") && (kn.Normal? ==> "" !in secs[1..])
    ensures Kept(kn, ReadSections(keys, vals, SectionsFrom(keys, 0), START), t, SectionsFrom(keys, 0), MapOf(keys, vals))
  {
    hide LinesRead, Given, Kept, ReadSections, SectionsFrom, IsSection, MapOf;
    LinesReadFacts(keys, vals);
    SectionsAre(keys, 0);
    var secs := SectionsFrom(keys, 0);
    t := SectionsKeep(kn, keys, vals, secs, 0, START);
    assert secs[0..] == secs;
  }

  /** The dictionary comes back. */
  ghost predicate Survives(keys: seq<Text>, vals: seq<Text>) {
    |keys| == |vals| && LoadText(DumpText(keys, vals)) == Some(MapOf(keys, vals))
  }

  lemma SurvivesShape(kn: Known, keys: seq<Text>, vals: seq<Text>, k: string)
    requires LinesRead(keys, vals) && SectionsFrom(keys, 0) != [] && Given(kn, keys, vals, SectionsFrom(keys, 0))
    requires var secs := SectionsFrom(keys, 0); (kn.NonEmpty? ==> secs[0] != "") && (kn.Normal? ==> "" !in secs[1..])
    requires Survives(keys, vals) && k in MapOf(keys, vals)
    ensures Yielded(k, MapOf(keys, vals)[k], kn != Nothing)
    ensures kn.NonEmpty? ==> k != ""
    ensures kn.Normal? && !IsSection(k) ==> OwnLine(k, MapOf(keys, vals)[k], SectionsFrom(keys, 0), MapOf(keys, vals))
  {
    hide LinesRead, Given, ReadSections, SectionsFrom, MapOf, DumpText, LoadText, Yielded, OwnLine, Name, IsSection;
    LinesReadFacts(keys, vals);
    DumpFold(keys, vals);
    var t := EndKept(kn, keys, vals);
  }

  /** No name holds a bracket. */
  lemma SurvivesClean(keys: seq<Text>, vals: seq<Text>)
    requires LinesRead(keys, vals) && SectionsFrom(keys, 0) != [] && Survives(keys, vals)
    ensures Given(Clean, keys, vals, SectionsFrom(keys, 0))
  {
    hide LinesRead, SectionsFrom, MapOf, Survives, NormalKeys;
    LinesReadFacts(keys, vals);
    SectionsAre(keys, 0);
    SlotsOf(keys, vals);
    forall s | s in SectionsFrom(keys, 0)
      ensures ']' !in s
    {
      SurvivesShape(Nothing, keys, vals, s);
    }
  }

  /** All names and keys are as the loader leaves them. */
  lemma SurvivesNormal(keys: seq<Text>, vals: seq<Text>)
    requires LinesRead(keys, vals) && SectionsFrom(keys, 0) != [] && Survives(keys, vals)
    ensures NormalKeys(keys, SectionsFrom(keys, 0))
    ensures forall i | 0 <= i < |keys| && keys[i] != None :: Yielded(keys[i].value, vals[i], true)
  {
    hide *;
    SurvivesClean(keys, vals);
    LinesReadFacts(keys, vals);
    SectionsAre(keys, 0);
    SlotsOf(keys, vals);
    forall i | 0 <= i < |keys| && keys[i] != None
      ensures Yielded(keys[i].value, vals[i], true)
    {
      SurvivesShape(Clean, keys, vals, keys[i].value);
    }
    YieldedNormal(keys, vals, SectionsFrom(keys, 0));
  }

  lemma YieldedNormal(keys: seq<Text>, vals: seq<Text>, secs: seq<string>)
    requires |keys| == |vals| && forall s | s in secs :: Some(s) in keys && IsSection(s)
    requires forall i | 0 <= i < |keys| && keys[i] != None :: Yielded(keys[i].value, vals[i], true)
    ensures NormalKeys(keys, secs)
  {
    hide Stripped, Lower, PrintableKey, KeyOf, IsSection;
    forall s | s in secs
      ensures ']' !in s && Stripped(s) && Lower(s) == s
    {
      var i :| 0 <= i < |keys| && keys[i] == Some(s);
      assert Yielded(keys[i].value, vals[i], true);
    }
  }

  /** Only the first name can be empty. */
  lemma SurvivesFirst(keys: seq<Text>, vals: seq<Text>)
    requires LinesRead(keys, vals) && SectionsFrom(keys, 0) != [] && Survives(keys, vals)
    ensures EmptyFirst(SectionsFrom(keys, 0)) && "" !in SectionsFrom(keys, 0)[1..]
  {
    hide *;
    SurvivesNormal(keys, vals);
    LinesReadFacts(keys, vals);
    var secs := SectionsFrom(keys, 0);
    SectionsAre(keys, 0);
    SectionsDistinct(keys, 0);
    SlotsOf(keys, vals);
    if "" in secs && secs[0] != "" {
      GivenNonEmpty(keys, vals, secs);
      SurvivesShape(NonEmpty, keys, vals, "");
    }
    FirstOnly(secs);
  }

  lemma GivenNonEmpty(keys: seq<Text>, vals: seq<Text>, secs: seq<string>)
    requires NormalKeys(keys, secs)
    ensures Given(NonEmpty, keys, vals, secs)
  {
    hide Stripped, Lower, PrintableKey, KeyOf, IsSection;
  }

  lemma FirstOnly(secs: seq<string>)
    requires secs != [] && ("" in secs ==> secs[0] == "") && AllDifferent(secs)
    ensures EmptyFirst(secs) && "" !in secs[1..]
  {
    assert forall a | 0 <= a < |secs[1..]| :: secs[1..][a] == secs[a + 1];
  }

  /** Every entry is read from its own line. */
  lemma SurvivesEntry(keys: seq<Text>, vals: seq<Text>, i: nat)
    requires LinesRead(keys, vals) && SectionsFrom(keys, 0) != [] && Survives(keys, vals)
    requires i < |keys| && keys[i] != None && !IsSection(keys[i].value)
    ensures GoodEntry(keys[i].value, vals[i]) && Some(SectionOf(keys[i].value)) in keys
  {
    SurvivesNormal(keys, vals);
    SurvivesFirst(keys, vals);
    assert Given(Normal, keys, vals, SectionsFrom(keys, 0));
    var k := keys[i].value;
    hide LinesRead, SectionsFrom, MapOf, Survives, Given, NormalKeys, EmptyFirst, KeyOf, SectionOf, ValueOf, Strip,
         PrintableKey, IsSection, GoodEntry, OneLine, EntryLike;
    LinesReadFacts(keys, vals);
    SectionsAre(keys, 0);
    SlotsOf(keys, vals);
    SurvivesShape(Normal, keys, vals, k);
    var v := vals[i].value;
    ReadOwnLine(keys, vals, i);
    EntryGood(k, v);
  }

  lemma ReadOwnLine(keys: seq<Text>, vals: seq<Text>, i: nat)
    requires LinesRead(keys, vals) && SectionsFrom(keys, 0) != []
    requires i < |keys| && keys[i] != None && !IsSection(keys[i].value)
    ensures OneLine(keys[i].value) && EntryLike(PrintEntry(KeyOf(keys[i].value), Printed(vals[i])))
  {
    hide OneLine, EntryLike, PrintEntry, SectionsFrom, IsSection, KeyOf;
    assert SlotRead(keys[i].value, vals[i], SectionsFrom(keys, 0) == []);
  }

  lemma EntryGood(k: string, v: string)
    requires OneLine(k) && EntryLike(PrintEntry(KeyOf(k), v)) && PrintableKey(KeyOf(k)) && ValueOf(Strip(v)) == v
    ensures GoodEntry(k, Some(v))
  {
    hide KeyOf, ValueOf, Strip, PrintEntry, Continued, SectionLike, PrintableKey, Printable, LoadedLine;
    EntryValue(KeyOf(k), v, "");
    EntrySurvives(KeyOf(k), v, "");
    EntryOneLine(KeyOf(k), v);
  }

  lemma EntryOneLine(k: string, v: string)
    requires OneLine(PrintEntry(k, v))
    ensures OneLine(v)
  {
    var e := PrintEntry(k, v);
    assert e[|e| - |v|..] == v;
    assert forall c | c in v :: c in e;
  }

  /** A dump with sections comes back only if it is well formed. */
  lemma OnlyWellFormed(keys: seq<Text>, vals: seq<Text>)
    requires LinesRead(keys, vals) && SectionsFrom(keys, 0) != [] && Survives(keys, vals)
    ensures WellFormed(keys, vals)
  {
    SurvivesNormal(keys, vals);
    SurvivesFirst(keys, vals);
    LinesReadFacts(keys, vals);
    forall i | 0 <= i < |keys| && keys[i] != None
      ensures if IsSection(keys[i].value) then GoodSection(keys[i].value, vals[i])
              else GoodEntry(keys[i].value, vals[i]) && Some(SectionOf(keys[i].value)) in keys
    {
      hide LinesRead, SectionsFrom, Survives, NormalKeys, EmptyFirst, KeyOf, SectionOf, IsSection, GoodEntry,
           OneLine, Stripped, Lower, PrintSection, PrintableKey;
      if IsSection(keys[i].value) {
        SectionLineFits(keys, vals, keys[i].value);
        assert Yielded(keys[i].value, vals[i], true);
      } else {
        SurvivesEntry(keys, vals, i);
      }
    }
    hide SectionsFrom, LinesRead, GoodSection, GoodEntry, EmptyFirst, Survives, NormalKeys, SectionOf, IsSection,
         Yielded;
  }

  // ---- A dump without sections

  function PlainText(v: Text): string {
    if v == None then "(null)" else v.value
  }

  /** Reading the keys of a dump without sections, from slot j on. */
  function ReadPlain(keys: seq<Text>, vals: seq<Text>, j: nat, st: Loader): Loader
    requires |keys| == |vals| && j <= |keys|
    decreases |keys| - j
  {
    if j == |keys| then st
    else if keys[j] != None then ReadPlain(keys, vals, j + 1, ReadLine(st, PlainEntry(keys[j].value, vals[j])))
    else ReadPlain(keys, vals, j + 1, st)
  }

  lemma PlainLineRead(keys: seq<Text>, vals: seq<Text>, j: nat)
    requires LinesRead(keys, vals) && SectionsFrom(keys, 0) == [] && j < |keys| && keys[j] != None
    ensures EntryLike(PlainEntry(keys[j].value, vals[j])) && PlainEntry(keys[j].value, vals[j]) != ""
    ensures !IsSection(keys[j].value)
  {
    SectionsAre(keys, 0);
    hide EntryLike, SectionsFrom, IsSection;
    assert SlotRead(keys[j].value, vals[j], SectionsFrom(keys, 0) == []);
    assert |PlainEntry(keys[j].value, vals[j])| >= 3;
  }

  lemma {:induction false} PlainFold(keys: seq<Text>, vals: seq<Text>, j: nat, st: Loader)
    requires LinesRead(keys, vals) && SectionsFrom(keys, 0) == [] && j <= |keys| && st.prefix == ""
    ensures Loads(PlainFrom(keys, vals, j), st) == Some(ReadPlain(keys, vals, j, st))
    decreases |keys| - j
  {
    hide Loads, LinesRead, SectionsFrom, ReadLine, EntryLike, PlainEntry, IsSection;
    LinesReadFacts(keys, vals);
    if j == |keys| {
      LoadsNothing(st);
    } else if keys[j] != None {
      var (line, more) := (PlainEntry(keys[j].value, vals[j]), PlainFrom(keys, vals, j + 1));
      PlainLineRead(keys, vals, j);
      OneLineFold(line, more, st);
      PlainFold(keys, vals, j + 1, ReadLine(st, line));
      assert PlainFrom(keys, vals, j) == line + ("\n" + more);
    } else {
      PlainFold(keys, vals, j + 1, st);
    }
  }

  /** Everything that is read gets a colon in front. */
  ghost predicate Coloned(st: Loader) {
    st.prefix == "" && st.section == "" && forall k | k in st.dict :: |k| > 1 && k[0] == ':' && PrintableKey(k[1..])
  }

  lemma PlainStep(keys: seq<Text>, vals: seq<Text>, j: nat, st: Loader)
    requires LinesRead(keys, vals) && SectionsFrom(keys, 0) == [] && j < |keys| && keys[j] != None && Coloned(st)
    ensures var (k, next) := (keys[j].value, ReadLine(st, PlainEntry(keys[j].value, vals[j])));
            && Coloned(next) && st.dict.Keys <= next.dict.Keys
            && (PrintableKey(k) ==> next == st.(dict := st.dict[":" + k := Some(ValueOf(Strip(PlainText(vals[j]))))]))
  {
    hide *;
    LinesReadFacts(keys, vals);
    var (k, line) := (keys[j].value, PlainEntry(keys[j].value, vals[j]));
    PlainLineRead(keys, vals, j);
    ColonedParts(st);
    EntryLikeRead(line, st.section);
    ReadPrefix(line, st);
    ReadColoned(st, LoadedLine(line, st.section).result);
    if PrintableKey(k) {
      PlainIs(k, vals[j]);
      PaddedValue(k, 0, PlainText(vals[j]), st.section);
      ApplyValue(st, k, ValueOf(Strip(PlainText(vals[j]))));
      assert "" + ":" + k == ":" + k;
    }
  }

  lemma ColonedParts(st: Loader)
    requires Coloned(st)
    ensures st.prefix == "" && st.section == ""
  {
  }

  lemma PlainIs(k: string, v: Text)
    ensures PlainEntry(k, v) == PrintPadded(k, 0, PlainText(v))
  {
  }

  lemma ReadColoned(st: Loader, r: LineResult)
    requires Coloned(st) && !r.Section? && (r.Value? ==> PrintableKey(r.key))
    ensures Coloned(Apply(st, r)) && st.dict.Keys <= Apply(st, r).dict.Keys
  {
    if r.Value? {
      var k := "" + ":" + r.key;
      KeyFacts(r.key);
      assert k[0] == ':' && k[1..] == r.key;
      hide PrintableKey;
    }
  }

  lemma {:induction false} PlainColoned(keys: seq<Text>, vals: seq<Text>, j: nat, st: Loader)
    requires LinesRead(keys, vals) && SectionsFrom(keys, 0) == [] && j <= |keys| && Coloned(st)
    ensures var end := ReadPlain(keys, vals, j, st);
            && Coloned(end) && st.dict.Keys <= end.dict.Keys
            && forall i | j <= i < |keys| && keys[i] != None && PrintableKey(keys[i].value) :: ":" + keys[i].value in end.dict
    decreases |keys| - j
  {
    hide LinesRead, SectionsFrom, ReadLine, PlainEntry, PrintableKey, Coloned, ValueOf, Strip;
    LinesReadFacts(keys, vals);
    if j < |keys| {
      if keys[j] != None {
        PlainStep(keys, vals, j, st);
        var next := ReadLine(st, PlainEntry(keys[j].value, vals[j]));
        PlainColoned(keys, vals, j + 1, next);
        assert PrintableKey(keys[j].value) ==> ":" + keys[j].value in next.dict.Keys;
      } else {
        PlainColoned(keys, vals, j + 1, st);
      }
    }
  }

  lemma PlainDump(keys: seq<Text>, vals: seq<Text>)
    requires LinesRead(keys, vals) && SectionsFrom(keys, 0) == []
    ensures var st := ReadPlain(keys, vals, 0, START);
            LoadText(DumpText(keys, vals)) == if st.errs then None else Some(st.dict)
  {
    hide LinesRead, SectionsFrom, PlainFrom, ReadPlain, SectionTexts, Loads;
    LinesReadFacts(keys, vals);
    PlainFold(keys, vals, 0, START);
  }

  /** What the loader makes of the printed value. */
  function ReadValue(v: Text): string {
    ValueOf(Strip(PlainText(v)))
  }

  /** The dictionary holds exactly the keys of the first j slots, each with a colon in front. */
  ghost predicate Moved(d: map<string, Text>, keys: seq<Text>, vals: seq<Text>, j: nat)
    requires |keys| == |vals| && j <= |keys|
  {
    && (forall i | 0 <= i < j && keys[i] != None :: MovedSlot(d, keys[i].value, vals[i]))
    && (forall k | k in d :: FromSlot(k, keys[..j]))
  }

  predicate FromSlot(k: string, keys: seq<Text>) {
    |k| > 0 && k[0] == ':' && Some(k[1..]) in keys
  }

  predicate MovedSlot(d: map<string, Text>, k: string, v: Text) {
    ":" + k in d && d[":" + k] == Some(ReadValue(v))
  }

  lemma MovedStep(d: map<string, Text>, keys: seq<Text>, vals: seq<Text>, j: nat)
    requires |keys| == |vals| && DistinctKeys(keys) && j < |keys| && Moved(d, keys, vals, j)
    ensures if keys[j] == None then Moved(d, keys, vals, j + 1)
            else Moved(d[":" + keys[j].value := Some(ReadValue(vals[j]))], keys, vals, j + 1)
  {
    hide MovedSlot, FromSlot, ReadValue;
    assert keys[..j + 1] == keys[..j] + [keys[j]];
    forall k | k in d
      ensures FromSlot(k, keys[..j + 1])
    {
      FromMore(k, keys[..j], keys[j]);
    }
    if keys[j] != None {
      var d' := d[":" + keys[j].value := Some(ReadValue(vals[j]))];
      MovedHere(d, keys[j].value, vals[j]);
      forall i | 0 <= i < j && keys[i] != None
        ensures MovedSlot(d', keys[i].value, vals[i])
      {
        MovedOther(d, keys[j].value, vals[j], keys[i].value, vals[i]);
      }
      FromThis(keys[..j], keys[j].value);
    }
  }

  lemma FromMore(k: string, keys: seq<Text>, more: Text)
    requires FromSlot(k, keys)
    ensures FromSlot(k, keys + [more])
  {
  }

  lemma FromThis(keys: seq<Text>, k: string)
    ensures FromSlot(":" + k, keys + [Some(k)])
  {
    ColonFront(k);
  }

  lemma ColonFront(k: string)
    ensures (":" + k)[0] == ':' && (":" + k)[1..] == k
  {
  }

  lemma MovedHere(d: map<string, Text>, k: string, v: Text)
    ensures MovedSlot(d[":" + k := Some(ReadValue(v))], k, v)
  {
    hide ReadValue;
  }

  lemma MovedOther(d: map<string, Text>, k: string, v: Text, k': string, v': Text)
    requires k != k' && MovedSlot(d, k', v')
    ensures MovedSlot(d[":" + k := Some(ReadValue(v))], k', v')
  {
    hide ReadValue;
    ColonFront(k);
    ColonFront(k');
    assert ":" + k != ":" + k';
  }

  lemma {:induction false} PlainMoved(keys: seq<Text>, vals: seq<Text>, j: nat, st: Loader)
    requires LinesRead(keys, vals) && SectionsFrom(keys, 0) == [] && j <= |keys| && Coloned(st) && !st.errs
    requires forall i | 0 <= i < |keys| && keys[i] != None :: PrintableKey(keys[i].value)
    requires Moved(st.dict, keys, vals, j)
    ensures var end := ReadPlain(keys, vals, j, st); !end.errs && Moved(end.dict, keys, vals, |keys|)
    decreases |keys| - j
  {
    hide LinesRead, SectionsFrom, ReadLine, PlainEntry, PrintableKey, Coloned, ValueOf, Strip,
         Moved, PlainText, ReadValue;
    LinesReadFacts(keys, vals);
    if j < |keys| {
      MovedStep(st.dict, keys, vals, j);
      if keys[j] != None {
        PlainStep(keys, vals, j, st);
        ReadValueIs(vals[j]);
        PlainMoved(keys, vals, j + 1, ReadLine(st, PlainEntry(keys[j].value, vals[j])));
      } else {
        PlainMoved(keys, vals, j + 1, st);
      }
    }
  }

  lemma ReadValueIs(v: Text)
    ensures ReadValue(v) == ValueOf(Strip(PlainText(v)))
  {
    hide ValueOf, Strip;
  }

  /** What loading the dump of a dictionary without sections gives, for printable keys: every key
      with a colon in front, and the value that is read from its line, "(null)" for NULL. */
  lemma PlainLoads(keys: seq<Text>, vals: seq<Text>)
    requires LinesRead(keys, vals) && SectionsFrom(keys, 0) == []
    requires forall i | 0 <= i < |keys| && keys[i] != None :: PrintableKey(keys[i].value)
    ensures LoadText(DumpText(keys, vals)) != None
    ensures Moved(LoadText(DumpText(keys, vals)).value, keys, vals, |keys|)
  {
    hide *;
    LinesReadFacts(keys, vals);
    PlainDump(keys, vals);
    StartMoved(keys, vals);
    PlainMoved(keys, vals, 0, START);
  }

  lemma StartMoved(keys: seq<Text>, vals: seq<Text>)
    requires |keys| == |vals|
    ensures Moved(START.dict, keys, vals, 0) && Coloned(START) && !START.errs
  {
  }

  lemma Longest(m: map<string, Text>) returns (k: string)
    requires m != map[]
    ensures k in m && forall k' | k' in m :: |k'| <= |k|
  {
    k := LongestOf(m.Keys);
  }

  lemma {:induction false} LongestOf(ks: set<string>) returns (k: string)
    requires ks != {}
    ensures k in ks && forall k' | k' in ks :: |k'| <= |k|
    decreases |ks|
  {
    k :| k in ks;
    if ks != {k} {
      var l := LongestOf(ks - {k});
      k := if |l| > |k| then l else k;
    }
  }

  lemma ColonedPrintable(k: string)
    requires |k| > 1 && k[0] == ':' && PrintableKey(k[1..])
    ensures PrintableKey(k)
  {
    assert k == [k[0]] + k[1..];
    assert Lower(k) == [ToLower(k[0])] + Lower(k[1..]);
    assert k[|k| - 1] == k[1..][|k| - 2];
    assert !IsSpace(':');
  }

  /** A dictionary without sections never comes back, because each load puts one more colon in
      front of every key; only the empty one does. */
  lemma ReadPlainSurvivesIff(keys: seq<Text>, vals: seq<Text>)
    requires LinesRead(keys, vals) && SectionsFrom(keys, 0) == []
    ensures Survives(keys, vals) <==> MapOf(keys, vals) == map[]
  {
    hide LinesRead, SectionsFrom, MapOf, DumpText, LoadText, ReadPlain, PrintableKey;
    LinesReadFacts(keys, vals);
    var m := MapOf(keys, vals);
    SlotsOf(keys, vals);
    if m == map[] {
      EmptySurvives(keys, vals);
    } else if Survives(keys, vals) {
      PlainDump(keys, vals);
      PlainColoned(keys, vals, 0, START);
      var k := Longest(m);
      ColonedPrintable(k);
    }
  }

  lemma EmptySurvives(keys: seq<Text>, vals: seq<Text>)
    requires |keys| == |vals| && DistinctKeys(keys) && MapOf(keys, vals) == map[]
    ensures Survives(keys, vals) && WellFormed(keys, vals)
  {
    SlotsOf(keys, vals);
    hide MapOf, DumpText, LoadText, SectionsFrom, GoodSection, GoodEntry, IsSection, SectionOf;
    assert forall i | 0 <= i < |keys| :: keys[i] == None;
    SectionsAre(keys, 0);
    NoneFirst(keys);
    assert WellFormed(keys, vals);
    LoadUndoesDump(keys, vals);
  }

  lemma NoneFirst(keys: seq<Text>)
    requires forall i | 0 <= i < |keys| :: keys[i] == None
    ensures EmptyFirst(SectionsFrom(keys, 0))
  {
    SectionsAre(keys, 0);
    hide SectionsFrom;
  }

  // ---- The whole result

  /** When every line of the dump is read as what it is printed for, dumping and loading gives the
      dictionary back exactly when it is well formed. */
  lemma ReadSurvivesIff(keys: seq<Text>, vals: seq<Text>)
    requires LinesRead(keys, vals)
    ensures Survives(keys, vals) <==> WellFormed(keys, vals)
  {
    hide *;
    LinesReadFacts(keys, vals);
    if SectionsFrom(keys, 0) == [] {
      ReadPlainSurvivesIff(keys, vals);
      if WellFormed(keys, vals) {
        WellFormedSurvives(keys, vals);
      } else if MapOf(keys, vals) == map[] {
        EmptySurvives(keys, vals);
      }
    } else if WellFormed(keys, vals) {
      WellFormedSurvives(keys, vals);
    } else if Survives(keys, vals) {
      OnlyWellFormed(keys, vals);
    }
  }

  lemma WellFormedSurvives(keys: seq<Text>, vals: seq<Text>)
    requires WellFormed(keys, vals)
    ensures Survives(keys, vals)
  {
    WellFormedLengths(keys, vals);
    LoadUndoesDump(keys, vals);
    hide WellFormed, DumpText, LoadText, MapOf;
  }

  /** Every well-formed dictionary has such lines. */
  lemma WellFormedReads(keys: seq<Text>, vals: seq<Text>)
    requires WellFormed(keys, vals)
    ensures LinesRead(keys, vals)
  {
    WellFormedLengths(keys, vals);
    forall i | 0 <= i < |keys| && keys[i] != None
      ensures SlotRead(keys[i].value, vals[i], SectionsFrom(keys, 0) == [])
    {
      hide *;
      SlotCovered(keys, vals, i);
      WellFormedSlot(keys, vals, i);
      if IsSection(keys[i].value) {
        SectionSlotRead(keys[i].value, vals[i], SectionsFrom(keys, 0) == []);
      } else {
        EntrySlotRead(keys[i].value, vals[i]);
        assert SectionsFrom(keys, 0) != [];
      }
    }
    hide WellFormed, SlotRead, SectionsFrom;
  }

  lemma WellFormedSlot(keys: seq<Text>, vals: seq<Text>, i: nat)
    requires WellFormed(keys, vals) && i < |keys| && keys[i] != None
    ensures |keys| == |vals|
    ensures if IsSection(keys[i].value) then GoodSection(keys[i].value, vals[i]) else GoodEntry(keys[i].value, vals[i])
  {
    hide IsSection, GoodSection, GoodEntry, SectionOf, SectionsFrom, EmptyFirst;
  }

  lemma SectionSlotRead(k: string, v: Text, plain: bool)
    requires GoodSection(k, v) && IsSection(k)
    ensures SlotRead(k, v, plain)
  {
  }

  lemma EntrySlotRead(k: string, v: Text)
    requires GoodEntry(k, v) && !IsSection(k)
    ensures SlotRead(k, v, false)
  {
    hide KeyOf, Printable, PrintEntry, OneLine, IsSection, EntryLike;
    OneLineParts(k);
    PrintableLike(KeyOf(k), v.value);
  }

  lemma PrintableLike(k: string, v: string)
    requires Printable(k, v) && OneLine(k) && OneLine(v) && |PrintEntry(k, v)| < LINE_ROOM
    ensures EntryLike(PrintEntry(k, v))
  {
    hide *;
    var e := PrintEntry(k, v);
    EntryFacts(k, v);
    EntrySurvives(k, v, "");
    LoadedIs(e, "");
    if SectionLike(e) {
      SectionLikeRead(e);
    }
    LikeIs(e);
  }

  lemma SectionLikeRead(line: string)
    requires SectionLike(line)
    ensures ParseLine(TrimRight(line), "").Section?
  {
    ParsedAsSection(TrimRight(line), "");
    hide ParseLine, TrimRight, Strip;
  }

  lemma LikeIs(line: string)
    requires OneLine(line) && |line| < LINE_ROOM && !Continued(line) && !SectionLike(line)
    ensures EntryLike(line)
  {
  }
}
