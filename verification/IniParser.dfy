/**
 The imperative side of utils/iniparser.c: C strings edited in place, the load loop over one
 line buffer, and the dump loops over the slots of a dictionary.
 */
module IniParser {
  import opened CType
  import opened Options
  import opened IniLine
  import opened IniFile
  import IniSurvival
  import opened Dictionaries

  // ---- C strings in buffers

  /** The buffer holds the NUL-terminated string s. */
  ghost predicate Holds(a: array<char>, s: string)
    reads a
  {
    && |s| < a.Length && a[|s|] == '\0' && '\0' !in s
    && (forall k | 0 <= k < |s| :: a[k] == s[k])
  }

  method Strlen(a: array<char>, ghost s: string) returns (n: nat)
    requires Holds(a, s)
    ensures n == |s|
  {
    n := 0;
    while a[n] != '\0'
      invariant n <= |s|
      decreases |s| - n
    {
      n := n + 1;
    }
  }

  /** `strcpy`. */
  method Store(a: array<char>, s: string)
    requires |s| < a.Length && '\0' !in s
    modifies a
    ensures Holds(a, s)
  {
    for k := 0 to |s|
      invariant forall j | 0 <= j < k :: a[j] == s[j]
    {
      a[k] := s[k];
    }
    a[|s|] := '\0';
  }

  lemma SkipBlank(s: string, i: nat)
    requires i < |s| && IsSpace(s[i])
    ensures TrimLeft(s[i..]) == TrimLeft(s[i + 1..])
  {
    assert s[i..][1..] == s[i + 1..];
  }

  lemma BlanksSkipped(s: string, i: nat)
    requires i <= |s| && (i < |s| ==> !IsSpace(s[i])) && TrimLeft(s[i..]) == TrimLeft(s)
    ensures TrimLeft(s) == s[i..]
  {
  }

  lemma DropBlank(s: string, lo: nat, hi: nat)
    requires lo < hi <= |s| && IsSpace(s[hi - 1])
    ensures TrimRight(s[lo..hi]) == TrimRight(s[lo..hi - 1])
  {
    assert s[lo..hi][..hi - lo - 1] == s[lo..hi - 1];
  }

  lemma BlanksDropped(s: string, lo: nat, hi: nat)
    requires lo <= hi <= |s| && (lo < hi ==> !IsSpace(s[hi - 1]))
    ensures TrimRight(s[lo..hi]) == s[lo..hi]
  {
  }

  /** The first loop of `strstrip`. */
  method SkipBlanks(a: array<char>, ghost str: string) returns (s: nat)
    requires Holds(a, str)
    ensures s <= |str| && TrimLeft(str) == str[s..]
  {
    hide TrimLeft;
    s := 0;
    assert str[0..] == str;
    while IsSpace(a[s]) && a[s] != '\0'
      invariant s <= |str| && TrimLeft(str[s..]) == TrimLeft(str)
      decreases |str| - s
    {
      SkipBlank(str, s);
      s := s + 1;
    }
    BlanksSkipped(str, s);
  }

  /** The second loop of `strstrip`. */
  method DropBlanks(a: array<char>, s: nat, end: nat, ghost str: string) returns (last: nat)
    requires Holds(a, str) && s <= end == |str|
    ensures s <= last <= |str| && TrimRight(str[s..]) == str[s..last]
  {
    hide TrimRight;
    last := end;
    assert str[s..last] == str[s..];
    while last > s
      invariant s <= last <= |str| && TrimRight(str[s..last]) == TrimRight(str[s..])
    {
      if !IsSpace(a[last - 1]) {
        break;
      }
      DropBlank(str, s, last);
      last := last - 1;
    }
    BlanksDropped(str, s, last);
  }

  /** `strstrip`: removes blanks at both ends in place and returns the new length. */
  method Strstrip(a: array<char>, ghost str: string) returns (n: nat)
    requires Holds(a, str)
    modifies a
    ensures Holds(a, Strip(str)) && n == |Strip(str)|
  {
    hide TrimLeft, TrimRight;
    var end := Strlen(a, str);
    var s := SkipBlanks(a, str);
    var last := DropBlanks(a, s, end, str);
    assert Strip(str) == str[s..last];
    a[last] := '\0';
    // memmove(dest, s, last - s + 1)
    forall k | 0 <= k <= last - s {
      a[k] := a[s + k];
    }
    n := last - s;
  }

  /** `strlwc`, also with `out` the same buffer as `str`. */
  method Strlwc(str: array<char>, out: array<char>, len: nat, ghost s: string)
    requires Holds(str, s) && len > 0 && |Cut(s, len - 1)| < out.Length
    modifies out
    ensures Holds(out, Lower(Cut(s, len - 1)))
  {
    LowerNoNul(Cut(s, len - 1));
    var i := 0;
    while str[i] != '\0' && i < len - 1
      invariant i <= |Cut(s, len - 1)|
      decreases |s| - i
      invariant forall k | 0 <= k < i :: out[k] == ToLower(s[k])
      invariant forall k | i <= k < |s| :: str[k] == s[k]
      invariant i <= |s| && str[|s|] == '\0'
    {
      out[i] := ToLower(str[i]);
      i := i + 1;
    }
    out[i] := '\0';
  }

  lemma LowerNoNul(s: string)
    requires '\0' !in s
    ensures '\0' !in Lower(s)
  {
  }

  // ---- One line

  datatype Status = LineError | LineEmpty | LineComment | LineSection | LineValue

  /** What one call leaves behind, for each result of the line parser. */
  ghost predicate Left(r: LineResult, sta: Status, section: array<char>, key: array<char>, value: array<char>, sec: string)
    reads section, key, value
  {
    match r
    case Empty => sta == LineEmpty && Holds(section, sec)
    case Comment => sta == LineComment && Holds(section, sec)
    case Section(name) => sta == LineSection && Holds(section, name)
    case Value(k, v) => sta == LineValue && Holds(key, k) && Holds(value, v) && Holds(section, sec)
    case Error => sta == LineError && Holds(section, sec)
  }

  /** A two-item `sscanf` whose scan is given: stores both items if both were converted. */
  method Sscanf(scan: Option<(string, string)>, key: array<char>, value: array<char>) returns (both: bool)
    requires key != value
    requires scan != None ==> |scan.value.0| < key.Length && |scan.value.1| < value.Length
    requires scan != None ==> '\0' !in scan.value.0 && '\0' !in scan.value.1
    modifies key, value
    ensures both <==> scan != None
    ensures both ==> Holds(key, scan.value.0) && Holds(value, scan.value.1)
  {
    both := scan != None;
    if both {
      Store(key, scan.value.0);
      Store(value, scan.value.1);
    }
  }

  lemma KeyParts(line: string)
    requires '\0' !in line && ScanKey(line) != None
    ensures var (k, v) := ScanKey(line).value; '\0' !in k && '\0' !in v && |k| <= |line| && |v| <= |line|
  {
    hide Until;
  }

  /** Both items of a scan are pieces of the line. */
  ghost predicate Pieces(line: string, r: Option<(string, string)>) {
    r != None ==> '\0' !in r.value.0 && '\0' !in r.value.1 && |r.value.0| <= |line| && |r.value.1| <= |line|
  }

  lemma QuotedParts(line: string, q: char)
    requires '\0' !in line
    ensures Pieces(line, ScanQuoted(line, q))
  {
    hide Until, ScanKey, ScanQuoted;
    if ScanKey(line) == None {
      NoKeyNoQuote(line, q);
    } else {
      var (raw, w) := ScanKey(line).value;
      KeyParts(line);
      ScansGiven(line, raw, w, q);
      QuotedPiece(w, q);
    }
  }

  lemma NoKeyNoQuote(line: string, q: char)
    requires ScanKey(line) == None
    ensures ScanQuoted(line, q) == None
  {
    hide ScanKey;
  }

  lemma QuotedPiece(w: string, q: char)
    requires '\0' !in w
    ensures Quoted(w, q) != None ==> '\0' !in Quoted(w, q).value && |Quoted(w, q).value| <= |w|
  {
    hide Until;
  }

  lemma PrefixPiece(w: string, n: nat)
    requires '\0' !in w
    ensures n <= |w| ==> '\0' !in w[..n] && |w[..n]| <= |w|
  {
  }

  lemma PlainParts(line: string)
    requires '\0' !in line
    ensures Pieces(line, ScanPlain(line)) && Pieces(line, ScanMarks(line))
  {
    hide ScanKey, ScanPlain, ScanMarks;
    if ScanKey(line) == None {
      NoKeyNoPlain(line);
    } else {
      var (raw, w) := ScanKey(line).value;
      KeyParts(line);
      ScansGiven(line, raw, w, '"');
      PrefixPiece(w, Until(w, {';', '#'}));
      PrefixPiece(w, While(w, {';', '#'}));
    }
  }

  lemma NoKeyNoPlain(line: string)
    requires ScanKey(line) == None
    ensures ScanPlain(line) == None && ScanMarks(line) == None
  {
    hide ScanKey;
  }

  lemma EqualsParts(line: string)
    requires '\0' !in line
    ensures Pieces(line, ScanEquals(line))
  {
    hide Until, While;
  }

  lemma SectionParts(line: string)
    requires '\0' !in line && ScanSection(line) != None
    ensures '\0' !in ScanSection(line).value && |ScanSection(line).value| <= |line|
  {
    hide Until;
  }

  /** `strstrip(key); strlwc(key, key, len)`. */
  method CleanUp(key: array<char>, len: nat, ghost raw: string)
    requires Holds(key, raw) && len > 0
    modifies key
    ensures Holds(key, Cleaned(raw, len))
  {
    hide Strip;
    var _ := Strstrip(key, raw);
    Strlwc(key, key, len, Strip(raw));
  }

  /** `!strcmp(value, "\"\"") || !strcmp(value, "''")`, then `value[0] = 0`. */
  method DropEmptyQuotes(value: array<char>, ghost v: string)
    requires Holds(value, v)
    modifies value
    ensures Holds(value, EmptyQuotes(v))
  {
    var n := Strlen(value, v);
    if n == 2 && ((value[0] == '"' && value[1] == '"') || (value[0] == '\'' && value[1] == '\'')) {
      value[0] := '\0';
      assert v == [v[0], v[1]];
    }
  }

  method SectionLineRead(line: string, section: array<char>, ghost sec: string)
    requires line != "" && '\0' !in line && |line| < section.Length && Holds(section, sec)
    modifies section
    ensures var x := ScanSection(line);
            Holds(section, Cleaned(if x == None then sec else x.value, |line|))
  {
    hide *;
    var scanned := ScanSection(line);
    ghost var raw := sec;
    if scanned != None {
      SectionParts(line);
      Store(section, scanned.value);
      raw := scanned.value;
    }
    CleanUp(section, |line|, raw);
  }

  /** One format of the key = value family, tried and post-processed. */
  method TryPlain(line: string, scan: Option<(string, string)>, key: array<char>, value: array<char>) returns (ok: bool)
    requires line != "" && '\0' !in line && key != value && |line| < key.Length && |line| < value.Length
    requires scan == ScanPlain(line)
    modifies key, value
    ensures ok <==> scan != None
    ensures ok ==> Holds(key, Cleaned(scan.value.0, |line|)) && Holds(value, EmptyQuotes(Strip(scan.value.1)))
  {
    PlainParts(line);
    hide *;
    ok := Sscanf(scan, key, value);
    if ok {
      CleanUp(key, |line|, scan.value.0);
      var _ := Strstrip(value, scan.value.1);
      DropEmptyQuotes(value, Strip(scan.value.1));
    }
  }

  method TryQuoted(line: string, q: char, scan: Option<(string, string)>, key: array<char>, value: array<char>) returns (ok: bool)
    requires line != "" && '\0' !in line && key != value && |line| < key.Length && |line| < value.Length
    requires scan == ScanQuoted(line, q)
    modifies key, value
    ensures ok <==> scan != None
    ensures ok ==> Holds(key, Cleaned(scan.value.0, |line|)) && Holds(value, scan.value.1)
  {
    QuotedParts(line, q);
    hide *;
    ok := Sscanf(scan, key, value);
    if ok {
      CleanUp(key, |line|, scan.value.0);
    }
  }

  method TryEmpty(line: string, scan: Option<(string, string)>, key: array<char>, value: array<char>) returns (ok: bool)
    requires line != "" && '\0' !in line && key != value && |line| < key.Length && |line| < value.Length
    requires scan == ScanMarks(line) || scan == ScanEquals(line)
    modifies key, value
    ensures ok <==> scan != None
    ensures ok ==> Holds(key, Cleaned(scan.value.0, |line|)) && Holds(value, "")
  {
    PlainParts(line);
    EqualsParts(line);
    hide *;
    ok := Sscanf(scan, key, value);
    if ok {
      CleanUp(key, |line|, scan.value.0);
      Store(value, "");
    }
  }

  method ValueLineRead(line: string, key: array<char>, value: array<char>) returns (sta: Status)
    requires line != "" && '\0' !in line && key != value && |line| < key.Length && |line| < value.Length
    modifies key, value
    ensures match KeyValue(line)
            case Value(k, v) => sta == LineValue && Holds(key, k) && Holds(value, v)
            case _ => KeyValue(line) == Error && sta == LineError
  {
    hide Holds, ScanQuoted, ScanPlain, ScanMarks, ScanEquals, Cleaned, EmptyQuotes, Strip;
    sta := LineValue;
    var ok := TryQuoted(line, '"', ScanQuoted(line, '"'), key, value);
    if !ok {
      ok := TryQuoted(line, '\'', ScanQuoted(line, '\''), key, value);
      if !ok {
        ok := TryPlain(line, ScanPlain(line), key, value);
        if !ok {
          ok := TryEmpty(line, ScanMarks(line), key, value);
          if !ok {
            ok := TryEmpty(line, ScanEquals(line), key, value);
            if !ok {
              sta := LineError;
            }
          }
        }
      }
    }
  }

  /** `iniparser_line`, on a copy of the line. */
  method IniparserLine(input: array<char>, section: array<char>, key: array<char>, value: array<char>,
                       ghost text: string, ghost sec: string)
    returns (sta: Status)
    requires Holds(input, text) && Holds(section, sec)
    requires section != key && section != value && key != value
    requires |text| < section.Length && |text| < key.Length && |text| < value.Length
    modifies section, key, value
    ensures Left(ParseLine(text, sec), sta, section, key, value, sec)
  {
    hide KeyValue, ScanSection, Cleaned, Strip;
    var n := Strlen(input, text);
    var copy := new char[n + 1];
    forall k | 0 <= k <= n {
      copy[k] := input[k];
    }
    var len := Strstrip(copy, text);
    StripStripped(text);
    var line := copy[..len];
    assert line == Strip(text);
    if len < 1 {
      sta := LineEmpty;
    } else if line[0] == '#' || line[0] == ';' {
      sta := LineComment;
    } else if line[0] == '[' && line[len - 1] == ']' {
      SectionLineRead(line, section, sec);
      sta := LineSection;
    } else {
      sta := ValueLineRead(line, key, value);
    }
  }

  // ---- Reading the file

  lemma ChunkStep(file: string, i: nat, room: nat)
    requires i < |file| && room > 0
    ensures ChunkLen(file[i..], room) == if file[i] == '\n' then 1 else 1 + ChunkLen(file[i + 1..], room - 1)
  {
    assert file[i..][1..] == file[i + 1..];
  }

  lemma NoChunk(file: string, i: nat, room: nat)
    requires i <= |file| && (i == |file| || room == 0)
    ensures ChunkLen(file[i..], room) == 0
  {
  }

  /** `fgets(line + last, n, in)` at position pos: what it stores, and whether it met the end of
      the file. */
  method Fgets(file: string, pos: nat, line: array<char>, last: nat, n: nat) returns (next: nat, eof: bool)
    requires pos < |file| && n > 1 && last + n <= line.Length
    modifies line
    ensures var c := ChunkLen(file[pos..], n - 1);
            && next == pos + c <= |file| && 0 < c < n
            && (eof <==> c < n - 1 && file[next - 1] != '\n')
            && (forall j | last <= j < last + c :: line[j] == file[pos + (j - last)]) && line[last + c] == '\0'
    ensures forall k | 0 <= k < last :: line[k] == old(line[k])
  {
    hide ChunkLen;
    ghost var c := ChunkLen(file[pos..], n - 1);
    var i, newline := 0, false;
    eof := false;
    while i < n - 1 && !newline && !eof
      invariant i <= n - 1 && pos + i <= |file| && (newline || eof ==> i > 0)
      invariant c == if newline || eof then i else i + ChunkLen(file[pos + i..], n - 1 - i)
      invariant i > 0 ==> (newline <==> file[pos + i - 1] == '\n')
      invariant eof ==> i < n - 1 && !newline
      invariant forall j | last <= j < last + i :: line[j] == file[pos + (j - last)]
      invariant forall k | 0 <= k < last :: line[k] == old(line[k])
      decreases n - 1 - i, !eof
    {
      if pos + i == |file| {
        NoChunk(file, pos + i, n - 1 - i);
        eof := true;
      } else {
        ChunkStep(file, pos + i, n - 1 - i);
        line[last + i] := file[pos + i];
        newline := file[pos + i] == '\n';
        i := i + 1;
      }
    }
    if i == n - 1 {
      NoChunk(file, pos + i, 0);
    }
    line[last + i] := '\0';
    next := pos + i;
  }

  // ---- Loading

  /** The loop that cuts blanks off the end of the line; `start` is the index of the last byte.
      The result is the index of the last byte kept, or 0 when none is left. */
  method TrimLine(line: array<char>, start: nat, ghost text: string) returns (len: nat)
    requires Holds(line, text) && start + 1 == |text|
    modifies line
    ensures Holds(line, TrimRight(text))
    ensures len == if TrimRight(text) == "" then 0 else |TrimRight(text)| - 1
  {
    hide TrimRight;
    var i: int := start;
    assert text[0..start + 1] == text;
    while i >= 0 && (line[i] == '\n' || IsSpace(line[i]))
      invariant -1 <= i <= start && Holds(line, text[0..i + 1]) && TrimRight(text[0..i + 1]) == TrimRight(text)
    {
      DropBlank(text, 0, i + 1);
      line[i] := '\0';
      i := i - 1;
    }
    BlanksDropped(text, 0, i + 1);
    len := if i < 0 then 0 else i;
  }

  /** `xstrdup`. */
  method Xstrdup(a: array<char>, ghost s: string) returns (r: string)
    requires Holds(a, s)
    ensures r == s
  {
    var n := Strlen(a, s);
    r := a[..n];
  }

  /** `dictionary_set` as the load loop calls it. */
  method Record(d: Dictionary, k: string, v: Text)
    requires d.Valid()
    modifies d, d.key, d.val, d.hash
    ensures d.Valid() && fresh(d.Repr() - old(d.Repr())) && d.Contents() == old(d.Contents())[k := v]
  {
    var _ := d.Set(Some(k), v);
  }

  /** `switch (iniparser_line(line, section, key, val))`. */
  method Dispatch(line: array<char>, section: array<char>, key: array<char>, val: array<char>, d: Dictionary,
                  ghost text: string, ghost st: Loader)
    returns (bad: bool)
    requires d.Valid() && d.Contents() == st.dict && {line, section, key, val} !! d.Repr()
    requires Holds(line, text) && Holds(section, st.section)
    requires section != key && section != val && key != val
    requires |text| < section.Length && |text| < key.Length && |text| < val.Length
    modifies section, key, val, d, d.key, d.val, d.hash
    ensures d.Valid() && fresh(d.Repr() - old(d.Repr()))
    ensures var next := Apply(st, ParseLine(text, st.section));
            d.Contents() == next.dict && Holds(section, next.section)
    ensures bad <==> ParseLine(text, st.section) == Error
  {
    hide ParseLine, Holds, MapOf;
    var sta := IniparserLine(line, section, key, val, text, st.section);
    ghost var r := ParseLine(text, st.section);
    bad := sta == LineError;
    match sta
    case LineSection =>
      var name := Xstrdup(section, r.name);
      Record(d, name, None);
    case LineValue =>
      var s := Xstrdup(section, st.section);
      var k := Xstrdup(key, r.key);
      var v := Xstrdup(val, r.value);
      Record(d, s + ":" + k, Some(v));
    case _ =>
  }

  /** One round of the loop in terms of the specification. */
  lemma LoadsRound(file: string, pos: nat, st: Loader)
    requires pos < |file| && |st.prefix| < LINE_ROOM
    ensures var n := ChunkLen(file[pos..], LINE_ROOM - |st.prefix|);
            var next := LoadChunk(st, file[pos..pos + n]);
            Loads(file[pos..], st) == if next == None then None else Loads(file[pos + n..], next.value)
  {
    hide ChunkLen, LoadChunk;
    var n := ChunkLen(file[pos..], LINE_ROOM - |st.prefix|);
    ChunkBound(file[pos..], LINE_ROOM - |st.prefix|);
    assert file[pos..][..n] == file[pos..pos + n];
    assert file[pos..][n..] == file[pos + n..];
  }

  lemma ChunkBound(file: string, room: nat)
    ensures ChunkLen(file, room) <= |file| && ChunkLen(file, room) <= room
  {
  }

  /** The buffers of the load loop, between two rounds. */
  ghost predicate Buffers(line: array<char>, section: array<char>, last: nat, st: Loader)
    reads line, section
  {
    && last == |st.prefix| < LINE_ROOM && line.Length == section.Length == LINE_ROOM + 2
    && (forall k | 0 <= k < last :: line[k] == st.prefix[k]) && '\0' !in st.prefix
    && Holds(section, st.section)
  }

  /** What the next round sees: the text up to the first NUL, which may come from the file. */
  function TextOf(st: Loader, chunk: string): string {
    CText(st.prefix + chunk)
  }

  /** `fgets` in the loop: the line buffer then holds the kept prefix and the next chunk. */
  method ReadLine(file: string, pos: nat, line: array<char>, section: array<char>, last: nat, ghost st: Loader)
    returns (next: nat, eof: bool)
    requires pos < |file| && line != section && Buffers(line, section, last, st)
    modifies line
    ensures pos < next <= |file| && next == pos + ChunkLen(file[pos..], LINE_ROOM - |st.prefix|)
    ensures Holds(line, TextOf(st, file[pos..next])) && (eof <==> MetEnd(st, file[pos..next]))
    ensures Buffers(line, section, last, st)
  {
    hide ChunkLen, CText;
    next, eof := Fgets(file, pos, line, last, LINE_ROOM + 1 - last);
    ghost var chunk := file[pos..next];
    assert forall j | 0 <= j < |chunk| :: chunk[j] == file[pos + j];
    assert chunk[|chunk| - 1] == file[next - 1];
    HoldsText(line, st.prefix + chunk);
  }

  /** Bytes with a NUL behind them, read as a C string. */
  lemma HoldsText(line: array<char>, bytes: string)
    requires |bytes| < line.Length && line[|bytes|] == '\0'
    requires forall k | 0 <= k < |bytes| :: line[k] == bytes[k]
    ensures Holds(line, CText(bytes))
  {
  }

  lemma TakeTextIs(st: Loader, text: string)
    ensures var t := TrimRight(text);
            TakeText(st, text) == if t != "" && t[|t| - 1] == '\\' then st.(prefix := t[..|t| - 1])
                                  else Apply(st.(prefix := ""), ParseLine(t, st.section))
    ensures '\0' !in text ==> '\0' !in TrimRight(text)
  {
    hide ParseLine, Apply;
  }

  lemma ApplyKeeps(st: Loader, r: LineResult)
    ensures Apply(st, r).prefix == st.prefix && Apply(st, r).errs == (st.errs || r == Error)
  {
  }

  /** The rest of a round: the line is trimmed, then kept for the next read or parsed. */
  method Absorb(line: array<char>, section: array<char>, key: array<char>, val: array<char>, d: Dictionary,
                len: nat, ghost text: string, ghost st: Loader)
    returns (last: nat, bad: bool)
    requires d.Valid() && d.Contents() == st.dict && {line, section, key, val} !! d.Repr()
    requires line != section && line != key && line != val && section != key && section != val && key != val
    requires Holds(line, text) && len + 1 == |text| <= LINE_ROOM
    requires line.Length == section.Length == key.Length == val.Length == LINE_ROOM + 2
    requires Holds(section, st.section)
    modifies line, section, key, val, d, d.key, d.val, d.hash
    ensures d.Valid() && fresh(d.Repr() - old(d.Repr()))
    ensures var next := TakeText(st, text);
            d.Contents() == next.dict && Buffers(line, section, last, next) && next.errs == (st.errs || bad)
  {
    hide TrimRight, ParseLine, Apply, MapOf, TakeText;
    TakeTextIs(st, text);
    ghost var t := TrimRight(text);
    TrimShorter(text);
    var i := TrimLine(line, len, text);
    if line[i] == '\\' {
      return i, false;
    }
    bad := Dispatch(line, section, key, val, d, t, st.(prefix := ""));
    ApplyKeeps(st.(prefix := ""), ParseLine(t, st.section));
    // memset(line, 0, ASCIILINESZ)
    forall k | 0 <= k < LINE_ROOM + 1 {
      line[k] := '\0';
    }
    last := 0;
  }

  lemma TrimShorter(text: string)
    ensures |TrimRight(text)| <= |text|
  {
  }

  lemma LoadChunkIs(st: Loader, chunk: string)
    requires |st.prefix| < LINE_ROOM && |st.prefix| + |chunk| <= LINE_ROOM
    ensures |TextOf(st, chunk)| <= LINE_ROOM
    ensures var text := TextOf(st, chunk);
            LoadChunk(st, chunk) == if |text| <= 1 then Some(st)
                                    else if text[|text| - 1] != '\n' && !MetEnd(st, chunk) then None
                                    else Some(TakeText(st, text))
  {
    hide TakeText;
  }

  /** One round of the load loop; the load is given up when a line does not fit the buffer. */
  method Round(file: string, pos: nat, line: array<char>, section: array<char>, key: array<char>, val: array<char>,
               d: Dictionary, last: nat, ghost st: Loader)
    returns (next: nat, last': nat, bad: bool, tooLong: bool, ghost st': Loader)
    requires pos < |file| && Buffers(line, section, last, st)
    requires d.Valid() && d.Contents() == st.dict && {line, section, key, val} !! d.Repr()
    requires line != section && line != key && line != val && section != key && section != val && key != val
    requires key.Length == val.Length == LINE_ROOM + 2 && |st.prefix| < LINE_ROOM
    modifies line, section, key, val, d.Repr()
    ensures pos < next <= |file| && d.Valid() && fresh(d.Repr() - old(d.Repr()))
    ensures tooLong ==> Loads(file[pos..], st) == None
    ensures !tooLong ==> |st'.prefix| < LINE_ROOM && Loads(file[pos..], st) == Loads(file[next..], st')
    ensures !tooLong ==> d.Contents() == st'.dict && Buffers(line, section, last', st') && st'.errs == (st.errs || bad)
  {
    hide Loads, LoadChunk, TakeText, ChunkLen, Holds, Buffers, MapOf, Occupied, DistinctKeys, HashOf, MetEnd, CText;
    BufferFacts(line, section, last, st);
    var eof;
    next, eof := ReadLine(file, pos, line, section, last, st);
    ghost var chunk := file[pos..next];
    ghost var text := TextOf(st, chunk);
    LoadsRound(file, pos, st);
    LoadChunkIs(st, chunk);
    var n: int := Strlen(line, text);
    LastOf(line, text);
    var len := n - 1;
    last', bad, tooLong, st' := last, false, false, st;
    if len > 0 {
      if line[len] != '\n' && !eof {
        tooLong := true;
        return;
      }
      last', bad := Absorb(line, section, key, val, d, len, text, st);
      st' := TakeText(st, text);
      BufferFacts(line, section, last', st');
    }
  }

  lemma LastOf(line: array<char>, text: string)
    requires Holds(line, text)
    ensures |text| < line.Length && (text != "" ==> line[|text| - 1] == text[|text| - 1])
  {
  }

  /** The load loop; it fails when a line is too long or any line was malformed. */
  method LoadLines(file: string, line: array<char>, section: array<char>, key: array<char>, val: array<char>,
                   d: Dictionary)
    returns (ok: bool)
    requires Buffers(line, section, 0, START)
    requires d.Valid() && d.Contents() == map[] && {line, section, key, val} !! d.Repr()
    requires line != section && line != key && line != val && section != key && section != val && key != val
    requires key.Length == val.Length == LINE_ROOM + 2
    modifies line, section, key, val, d.Repr()
    ensures d.Valid() && fresh(d.Repr() - old(d.Repr()))
    ensures LoadText(file) == if ok then Some(d.Contents()) else None
  {
    hide Loads, LoadText, Holds, Buffers, Dictionary.Valid, Dictionary.Contents;
    var last, errs, pos := 0, 0, 0;
    ghost var st := START;
    StartFacts();
    assert file[0..] == file;
    LoadTextIs(file);
    while pos < |file|
      invariant pos <= |file| && d.Valid() && fresh(d.Repr() - old(d.Repr())) && d.Contents() == st.dict
      invariant {line, section, key, val} !! d.Repr() && Buffers(line, section, last, st)
      invariant |st.prefix| < LINE_ROOM && (errs > 0 <==> st.errs) && errs >= 0
      invariant Loads(file[pos..], st) == Loads(file, START)
    {
      var bad, tooLong;
      pos, last, bad, tooLong, st := Round(file, pos, line, section, key, val, d, last, st);
      if tooLong {
        return false;
      }
      errs := errs + if bad then 1 else 0;
    }
    assert file[pos..] == "";
    ok := errs == 0;
  }

  /** `char x[ASCIILINESZ + 1]` and `memset(x, 0, ASCIILINESZ)`. */
  method NewBuffer() returns (a: array<char>)
    ensures fresh(a) && a.Length == LINE_ROOM + 2 && a[0] == '\0'
  {
    a := new char[LINE_ROOM + 2](_ => '\0');
  }

  /** `iniparser_load` on the bytes of a file: NULL, or a dictionary with the specified contents. */
  method IniparserLoad(file: string) returns (dict: Dictionary?)
    ensures dict == null <==> LoadText(file) == None
    ensures dict != null ==> fresh(dict) && fresh(dict.Repr()) && dict.Valid() && LoadText(file) == Some(dict.Contents())
  {
    hide Loads, LoadText, Holds, Buffers, Dictionary.Valid, Dictionary.Contents;
    var line := NewBuffer();
    var section := NewBuffer();
    var key := NewBuffer();
    var val := NewBuffer();
    var d := new Dictionary(0);
    StartBuffers(line, section);
    var ok := LoadLines(file, line, section, key, val, d);
    dict := if ok then d else null;
  }

  lemma StartFacts()
    ensures !START.errs && START.dict == map[] && START.prefix == "" && LINE_ROOM > 0
  {
  }

  lemma StartBuffers(line: array<char>, section: array<char>)
    requires line.Length == section.Length == LINE_ROOM + 2 && section[0] == '\0'
    ensures Buffers(line, section, 0, START)
  {
  }

  lemma BufferFacts(line: array<char>, section: array<char>, last: nat, st: Loader)
    requires Buffers(line, section, last, st)
    ensures last == |st.prefix| < LINE_ROOM && line.Length == section.Length == LINE_ROOM + 2
    ensures Holds(section, st.section)
  {
  }

  lemma LoadTextIs(file: string)
    ensures var end := Loads(file, START);
            LoadText(file) == if end == None || end.value.errs then None else Some(end.value.dict)
    ensures forall st: Loader | |st.prefix| < LINE_ROOM :: Loads("", st) == Some(st)
  {
  }

  // ---- Dumping

  /** `iniparser_getnsec`. */
  method GetNSec(d: Dictionary) returns (nsec: nat)
    requires d.Valid()
    ensures nsec == |SectionsFrom(d.key[..], 0)|
  {
    hide IsSection;
    ghost var keys := d.key[..];
    nsec := 0;
    for i := 0 to d.size
      invariant nsec + |SectionsFrom(keys, i)| == |SectionsFrom(keys, 0)|
    {
      if d.key[i] != None {
        if IsSection(d.key[i].value) {
          nsec := nsec + 1;
        }
      }
    }
  }

  /** `iniparser_getsecname`. */
  method GetSecName(d: Dictionary, n: int) returns (name: Text)
    requires d.Valid()
    ensures var secs := SectionsFrom(d.key[..], 0); name == if 0 <= n < |secs| then Some(secs[n]) else None
  {
    hide IsSection;
    if n < 0 {
      return None;
    }
    ghost var keys := d.key[..];
    ghost var secs := SectionsFrom(keys, 0);
    var i, foundsec := 0, 0;
    while i < d.size
      invariant i <= d.size && foundsec <= n && foundsec <= |secs|
      invariant secs[foundsec..] == SectionsFrom(keys, i)
    {
      if d.key[i] != None {
        if IsSection(d.key[i].value) {
          foundsec := foundsec + 1;
          assert secs[foundsec - 1] == SectionsFrom(keys, i)[0];
          if foundsec > n {
            break;
          }
          assert secs[foundsec..] == SectionsFrom(keys, i)[1..];
        }
      }
      i := i + 1;
    }
    name := if foundsec <= n then None else d.key[i];
  }

  /** `iniparser_find_entry`, through a lower-cased copy of at most ASCIILINESZ bytes. */
  method FindEntry(d: Dictionary, entry: string) returns (found: bool)
    requires d.Valid()
    ensures found <==> Some(Lower(Cut(entry, 1024))) in d.key[..]
  {
    hide MapOf;
    SlotsOf(d.key[..], d.val[..]);
    var r := d.Get(Lower(Cut(entry, 1024)));
    found := r != Default;
  }

  /** `iniparser_dumpsection_ini`; `out` is what is written. */
  method DumpSection(d: Dictionary, s: string) returns (out: string)
    requires d.Valid()
    ensures out == SectionText(d.key[..], d.val[..], s)
  {
    hide *;
    ghost var keys, vals := d.key[..], d.val[..];
    SlotCounts(d);
    var found := FindEntry(d, s);
    if !found {
      SectionTextIs(keys, vals, s);
      return "";
    }
    out := "\n" + PrintSection(s) + "\n";
    ghost var head := out;
    var j := 0;
    while j < d.size
      invariant j <= d.size && out + EntriesFrom(keys, vals, s, j) == head + EntriesFrom(keys, vals, s, 0)
    {
      if d.key[j] != None && Belongs(d.key[j].value, s) {
        EntriesHere(keys, vals, s, j, "");
        Grouped(out, EntryLine(d.key[j].value, s, d.val[j]), EntriesFrom(keys, vals, s, j + 1),
                EntriesFrom(keys, vals, s, j));
        out := out + EntryLine(d.key[j].value, s, d.val[j]);
      } else {
        EntriesElsewhere(keys, vals, s, j);
      }
      j := j + 1;
    }
    NoEntries(keys, vals, s, "");
    SectionTextIs(keys, vals, s);
    SectionParted(PrintSection(s), EntriesFrom(keys, vals, s, 0));
    NothingAdded(out, EntriesFrom(keys, vals, s, j));
    out := out + "\n";
  }

  lemma NothingAdded(out: string, e: string)
    requires e + "" == ""
    ensures out + e == out
  {
    assert e == "";
  }

  lemma Grouped(out: string, a: string, b: string, ab: string)
    requires ab + "" == a + (b + "")
    ensures out + ab == (out + a) + b
  {
    assert ab + "" == ab && b + "" == b;
  }

  lemma SectionParted(p: string, e: string)
    ensures (("\n" + p + "\n") + e) + "\n" == "\n" + (p + "\n" + (e + "\n"))
  {
  }

  lemma SectionTextIs(keys: seq<Text>, vals: seq<Text>, s: string)
    requires |keys| == |vals|
    ensures SectionText(keys, vals, s)
         == if Some(Lower(Cut(s, 1024))) !in keys then ""
            else "\n" + (PrintSection(s) + "\n" + (EntriesFrom(keys, vals, s, 0) + "\n"))
  {
    hide PrintSection, EntriesFrom;
  }

  lemma SlotCounts(d: Dictionary)
    requires d.Valid()
    ensures d.size == d.key.Length == d.val.Length
  {
  }

  /** `iniparser_dump_ini`; `out` is what is written. */
  method DumpIni(d: Dictionary) returns (out: string)
    requires d.Valid()
    ensures out == DumpText(d.key[..], d.val[..])
  {
    hide *;
    ghost var keys, vals := d.key[..], d.val[..];
    SlotCounts(d);
    DumpTextIs(keys, vals);
    ghost var secs := SectionsFrom(keys, 0);
    var nsec := GetNSec(d);
    out := "";
    if nsec < 1 {
      var i := 0;
      while i < d.size
        invariant i <= d.size && out + PlainFrom(keys, vals, i) == PlainFrom(keys, vals, 0)
      {
        PlainStep(out, keys, vals, i);
        if d.key[i] != None {
          out := out + PlainLine(d.key[i].value, d.val[i]);
        }
        i := i + 1;
      }
      PlainEnd(keys, vals);
      NothingAdded(out, PlainFrom(keys, vals, i));
      return;
    }
    var i := 0;
    assert secs[0..] == secs;
    while i < nsec
      invariant i <= nsec && out + SectionTexts(keys, vals, secs[i..]) == SectionTexts(keys, vals, secs)
    {
      var secname := GetSecName(d, i);
      var text := DumpSection(d, secname.value);
      TextsStep(out, keys, vals, secs, i);
      out := out + text;
      i := i + 1;
    }
    TextsEnd(keys, vals);
    assert secs[nsec..] == [];
    NothingAdded(out, SectionTexts(keys, vals, secs[nsec..]));
    out := out + "\n";
  }

  lemma DumpTextIs(keys: seq<Text>, vals: seq<Text>)
    requires |keys| == |vals|
    ensures var secs := SectionsFrom(keys, 0);
            DumpText(keys, vals) == if secs == [] then PlainFrom(keys, vals, 0) else SectionTexts(keys, vals, secs) + "\n"
    ensures forall x: string :: "" + x == x
  {
    hide SectionsFrom, PlainFrom, SectionTexts;
  }

  lemma PlainStep(out: string, keys: seq<Text>, vals: seq<Text>, i: nat)
    requires |keys| == |vals| && i < |keys|
    ensures out + PlainFrom(keys, vals, i)
         == (if keys[i] != None then out + PlainLine(keys[i].value, vals[i]) else out) + PlainFrom(keys, vals, i + 1)
  {
    hide PlainLine;
  }

  lemma PlainEnd(keys: seq<Text>, vals: seq<Text>)
    requires |keys| == |vals|
    ensures PlainFrom(keys, vals, |keys|) + "" == ""
  {
  }

  lemma TextsStep(out: string, keys: seq<Text>, vals: seq<Text>, secs: seq<string>, i: nat)
    requires |keys| == |vals| && i < |secs|
    ensures out + SectionTexts(keys, vals, secs[i..])
         == (out + SectionText(keys, vals, secs[i])) + SectionTexts(keys, vals, secs[i + 1..])
  {
    hide SectionText;
    assert secs[i..][1..] == secs[i + 1..];
  }

  lemma TextsEnd(keys: seq<Text>, vals: seq<Text>)
    requires |keys| == |vals|
    ensures SectionTexts(keys, vals, []) + "" == ""
  {
  }

  // ---- Dumping and loading back

  /** Saving a dictionary and loading the file gives a dictionary with the same contents exactly
      when it is well formed. */
  method SaveAndLoad(d: Dictionary) returns (file: string, again: Dictionary?)
    requires d.Valid()
    ensures again != null ==> fresh(again) && again.Valid()
    ensures again != null && again.Contents() == d.Contents() <==> WellFormed(d.key[..], d.val[..])
  {
    hide WellFormed, DumpText, LoadText, MapOf;
    IniSurvival.SurvivesIff(d.key[..], d.val[..]);
    file := DumpIni(d);
    again := IniparserLoad(file);
  }
}
