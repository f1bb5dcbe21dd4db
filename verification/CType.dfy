/**
 The character classes of the C locale and the two in-place string helpers of
 utils/iniparser.c as functions on strings.
 */
module CType {

  /** `isspace` in the C locale: space, \t, \n, \v, \f, \r. */
  predicate IsSpace(c: char) {
    c == ' ' || '\t' <= c <= '\r'
  }

  /** `tolower` in the C locale. */
  function ToLower(c: char): char {
    if 'A' <= c <= 'Z' then (c as int + 32) as char else c
  }

  function TrimLeft(s: string): (r: string)
    ensures |r| <= |s| && r == s[|s| - |r|..]
    ensures r != "" ==> !IsSpace(r[0])
  {
    if s != "" && IsSpace(s[0]) then TrimLeft(s[1..]) else s
  }

  function TrimRight(s: string): (r: string)
    ensures |r| <= |s| && r == s[..|r|]
    ensures r != "" ==> !IsSpace(r[|r| - 1])
  {
    if s != "" && IsSpace(s[|s| - 1]) then TrimRight(s[..|s| - 1]) else s
  }

  /** What `strstrip` leaves: blanks removed at both ends. */
  function Strip(s: string): string {
    TrimRight(TrimLeft(s))
  }

  /** What `strlwc` writes. */
  function Lower(s: string): (r: string)
    ensures |r| == |s| && forall i | 0 <= i < |s| :: r[i] == ToLower(s[i])
  {
    seq(|s|, i requires 0 <= i < |s| => ToLower(s[i]))
  }

  /** s neither starts nor ends with a blank. */
  predicate Stripped(s: string) {
    s == "" || (!IsSpace(s[0]) && !IsSpace(s[|s| - 1]))
  }

  ghost predicate AllSpaces(s: string) {
    forall i | 0 <= i < |s| :: IsSpace(s[i])
  }

  lemma StripStripped(s: string)
    ensures Stripped(Strip(s)) && |Strip(s)| <= |s|
    ensures Stripped(s) <==> Strip(s) == s
    ensures |Strip(s)| == |s| ==> Strip(s) == s
  {
    var t := TrimLeft(s);
    if TrimRight(t) != "" {
      assert TrimRight(t)[0] == t[0];
    }
  }

  lemma {:induction false} TrimRightSpaces(s: string, b: string)
    requires AllSpaces(b)
    ensures TrimRight(s + b) == TrimRight(s)
  {
    if b == "" {
      assert s + b == s;
    } else {
      var n := |b| - 1;
      assert (s + b)[..|s + b| - 1] == s + b[..n];
      assert (s + b)[|s + b| - 1] == b[n];
      TrimRightSpaces(s, b[..n]);
    }
  }

  lemma {:induction false} TrimLeftSpaces(b: string, s: string)
    requires AllSpaces(b)
    ensures TrimLeft(b + s) == TrimLeft(s)
  {
    if b == "" {
      assert b + s == s;
    } else {
      assert (b + s)[1..] == b[1..] + s;
      TrimLeftSpaces(b[1..], s);
    }
  }

  /** Trimming the right end of a string that ends in a non-blank part only touches that part. */
  lemma {:induction false} TrimRightConcat(a: string, b: string)
    ensures TrimRight(a + b) == if AllSpaces(b) then TrimRight(a) else a + TrimRight(b)
  {
    if AllSpaces(b) {
      TrimRightSpaces(a, b);
    } else {
      var n := |b| - 1;
      assert (a + b)[|a + b| - 1] == b[n];
      if IsSpace(b[n]) {
        assert (a + b)[..|a + b| - 1] == a + b[..n];
        assert !AllSpaces(b[..n]) by {
          var i :| 0 <= i < |b| && !IsSpace(b[i]);
          assert b[..n][i] == b[i];
        }
        TrimRightConcat(a, b[..n]);
      }
    }
  }

  lemma {:induction false} TrimLeftConcat(a: string, b: string)
    ensures TrimLeft(a + b) == if AllSpaces(a) then TrimLeft(b) else TrimLeft(a) + b
  {
    if AllSpaces(a) {
      TrimLeftSpaces(a, b);
    } else {
      assert (a + b)[0] == a[0];
      if IsSpace(a[0]) {
        assert (a + b)[1..] == a[1..] + b;
        assert !AllSpaces(a[1..]) by {
          var i :| 0 <= i < |a| && !IsSpace(a[i]);
          assert a[1..][i - 1] == a[i];
        }
        TrimLeftConcat(a[1..], b);
      }
    }
  }

  /** Lower-casing keeps blanks, punctuation and lengths, and is idempotent. */
  lemma LowerKeeps(s: string)
    ensures Lower(Lower(s)) == Lower(s)
    ensures Stripped(Lower(s)) <==> Stripped(s)
    ensures forall c | c in Lower(s) && !('a' <= c <= 'z') :: c in s
  {
    forall i | 0 <= i < |s|
      ensures Lower(Lower(s))[i] == Lower(s)[i]
    {
    }
    forall c | c in Lower(s) && !('a' <= c <= 'z')
      ensures c in s
    {
      var i :| 0 <= i < |s| && Lower(s)[i] == c;
      assert s[i] == c;
    }
  }

  lemma {:induction false} FirstSurvives(s: string)
    requires s != "" && !IsSpace(s[0])
    ensures TrimRight(s) != "" && TrimRight(s)[0] == s[0] && TrimLeft(s) == s
  {
    if IsSpace(s[|s| - 1]) {
      assert s[..|s| - 1][0] == s[0];
      FirstSurvives(s[..|s| - 1]);
    }
  }

  lemma AllSpacesTrim(s: string)
    requires AllSpaces(s)
    ensures TrimLeft(s) == "" && TrimRight(s) == "" && Strip(s) == ""
  {
    TrimLeftSpaces(s, "");
    assert s + "" == s;
    TrimRightSpaces("", s);
    assert "" + s == s;
  }

  lemma TrimRightAfter(a: string, b: string)
    requires a != "" && !IsSpace(a[|a| - 1])
    ensures TrimRight(a + b) == a + TrimRight(b)
  {
    TrimRightConcat(a, b);
    if AllSpaces(b) {
      AllSpacesTrim(b);
      assert a + "" == a;
    }
  }

  function FrontOf(s: string): (r: (char, string))
    requires s != ""
    ensures r.0 == s[0] && |r.1| < |s| && [r.0] + r.1 == s
  {
    (s[0], s[1..])
  }

  /** Trimming left and right commute. */
  lemma {:induction false} TrimCommute(s: string)
    ensures TrimLeft(TrimRight(s)) == TrimRight(TrimLeft(s))
    decreases |s|
  {
    if s == "" {
      EmptyTrim();
    } else if !IsSpace(s[0]) {
      hide *;
      TrimCommuteFirst(s);
    } else {
      var (c, t) := FrontOf(s);
      hide *;
      TrimCommute(t);
      TrimCommuteSpace(c, t);
    }
  }

  lemma TrimCommuteFirst(s: string)
    requires s != "" && !IsSpace(s[0])
    ensures TrimLeft(TrimRight(s)) == TrimRight(TrimLeft(s))
  {
    hide TrimLeft, TrimRight;
    FirstSurvives(s);
    FirstSurvives(TrimRight(s));
  }

  lemma TrimCommuteSpace(c: char, t: string)
    requires IsSpace(c) && TrimLeft(TrimRight(t)) == TrimRight(TrimLeft(t))
    ensures TrimLeft(TrimRight([c] + t)) == TrimRight(TrimLeft([c] + t))
  {
    OneSpace(c);
    hide *;
    TrimRightConcat([c], t);
    TrimLeftSpaces([c], t);
    if AllSpaces(t) {
      AllSpacesTrim(t);
      AllSpacesTrim([c]);
      EmptyTrim();
    } else {
      TrimLeftSpaces([c], TrimRight(t));
    }
  }

  lemma OneSpace(c: char)
    requires IsSpace(c)
    ensures AllSpaces([c])
  {
  }

  lemma EmptyTrim()
    ensures TrimLeft("") == "" && TrimRight("") == ""
  {
  }
}
