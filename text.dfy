/** Character-level rules the record store relies on: how SQLite orders
    TEXT values, how JavaScript trims and splits a search query, the
    ASCII case folding of `LOWER()` and `toLowerCase()`, how SQLite's
    `LIKE` matches a pattern, and the decimal spelling `toString()` gives
    a row id. */
module Text {

  // ---------------------------------------------------------------------
  // TEXT ordering
  // ---------------------------------------------------------------------

  /** SQLite's default BINARY collation: TEXT values compare character by
      character in code point order (which is also UTF-8 byte order), and a
      proper prefix sorts first. */
  predicate LexLe(a: string, b: string)
    decreases |a|
  {
    a == [] || (b != [] && (a[0] < b[0] || (a[0] == b[0] && LexLe(a[1..], b[1..]))))
  }

  predicate LexLt(a: string, b: string)
  {
    LexLe(a, b) && a != b
  }

  lemma {:induction false} LexLeReflexive(a: string)
    ensures LexLe(a, a)
  {
    if a != [] {
      LexLeReflexive(a[1..]);
    }
  }

  lemma {:induction false} LexLeTotal(a: string, b: string)
    ensures LexLe(a, b) || LexLe(b, a)
  {
    if a != [] && b != [] && a[0] == b[0] {
      LexLeTotal(a[1..], b[1..]);
    }
  }

  lemma {:induction false} LexLeAntisymmetric(a: string, b: string)
    requires LexLe(a, b) && LexLe(b, a)
    ensures a == b
  {
    if a != [] && b != [] {
      LexLeAntisymmetric(a[1..], b[1..]);
      assert a == [a[0]] + a[1..] && b == [b[0]] + b[1..];
    }
  }

  lemma {:induction false} LexLeTransitive(a: string, b: string, c: string)
    requires LexLe(a, b) && LexLe(b, c)
    ensures LexLe(a, c)
  {
    if a != [] && a[0] == b[0] && b[0] == c[0] {
      LexLeTransitive(a[1..], b[1..], c[1..]);
    }
  }

  // ---------------------------------------------------------------------
  // White space, trim and split
  // ---------------------------------------------------------------------

  /** The characters JavaScript's `trim()` removes and `\s` matches:
      the ECMAScript WhiteSpace and LineTerminator code points. */
  predicate IsSpace(c: char)
  {
    || c == ' ' || c == '\t' || c == '\n' || c == '\r'
    || c == '\U{000B}' || c == '\U{000C}' || c == '\U{00A0}' || c == '\U{1680}'
    || ('\U{2000}' <= c <= '\U{200A}')
    || c == '\U{2028}' || c == '\U{2029}' || c == '\U{202F}' || c == '\U{205F}'
    || c == '\U{3000}' || c == '\U{FEFF}'
  }

  predicate NoSpace(s: string)
  {
    forall i :: 0 <= i < |s| ==> !IsSpace(s[i])
  }

  /** `s` with its leading white space removed. */
  function TrimStart(s: string): (r: string)
    ensures |r| <= |s| && r == s[|s| - |r|..]
    ensures r == [] || !IsSpace(r[0])
    ensures forall i :: 0 <= i < |s| - |r| ==> IsSpace(s[i])
  {
    if s != [] && IsSpace(s[0]) then TrimStart(s[1..]) else s
  }

  /** `s` with its trailing white space removed. */
  function TrimEnd(s: string): (r: string)
    ensures |r| <= |s| && r == s[..|r|]
    ensures r == [] || !IsSpace(r[|r| - 1])
    ensures forall i :: |r| <= i < |s| ==> IsSpace(s[i])
  {
    if s != [] && IsSpace(s[|s| - 1]) then TrimEnd(s[..|s| - 1]) else s
  }

  /** `s.trim()`: a slice of `s` that neither starts nor ends with white
      space, empty exactly when `s` is all white space. */
  function Trim(s: string): (r: string)
    ensures |r| <= |s|
    ensures r == [] || (!IsSpace(r[0]) && !IsSpace(r[|r| - 1]))
    ensures r == [] <==> forall i :: 0 <= i < |s| ==> IsSpace(s[i])
  {
    TrimInner(s);
    TrimEnd(TrimStart(s))
  }

  lemma TrimInner(s: string)
    ensures var r := TrimEnd(TrimStart(s)); r == [] || !IsSpace(r[0])
    ensures TrimEnd(TrimStart(s)) == [] <==> forall i :: 0 <= i < |s| ==> IsSpace(s[i])
  {
    var t := TrimStart(s);
    var r := TrimEnd(t);
    if r != [] {
      assert r[0] == t[0];
    }
  }

  /** The longest prefix of `s` that holds no white space. */
  function Word(s: string): (w: string)
    ensures |w| <= |s| && w == s[..|w|]
    ensures NoSpace(w)
    ensures |w| == |s| || IsSpace(s[|w|])
  {
    if s == [] || IsSpace(s[0]) then [] else [s[0]] + Word(s[1..])
  }

  /** `s.split(/\s+/)`: the fields between maximal runs of white space
      (leading or trailing white space yields an empty first or last
      field, as in JavaScript). */
  function SplitWs(s: string): (r: seq<string>)
    ensures |r| >= 1
    decreases |s|
  {
    var w := Word(s);
    var rest := s[|w|..];
    if rest == [] then [w]
    else
      AfterWord(s);
      [w] + SplitWs(TrimStart(rest))
  }

  /** Whatever follows the first word starts with white space, so trimming
      it leaves less than `s`. */
  lemma AfterWord(s: string)
    requires s[|Word(s)|..] != []
    ensures var rest := s[|Word(s)|..];
      && IsSpace(rest[0]) && TrimStart(rest) == TrimStart(rest[1..])
      && |TrimStart(rest)| < |s|
  {
    var rest := s[|Word(s)|..];
    assert rest[0] == s[|Word(s)|];
  }

  /** The non-white-space characters of `s`, in order. */
  function Unspaced(s: string): string
  {
    if s == [] then [] else (if IsSpace(s[0]) then [] else [s[0]]) + Unspaced(s[1..])
  }

  function Concat(ss: seq<string>): string
  {
    if ss == [] then [] else ss[0] + Concat(ss[1..])
  }

  lemma {:induction false} UnspacedAppend(a: string, b: string)
    ensures Unspaced(a + b) == Unspaced(a) + Unspaced(b)
  {
    if a != [] {
      assert (a + b)[1..] == a[1..] + b;
      UnspacedAppend(a[1..], b);
    } else {
      assert a + b == b;
    }
  }

  lemma {:induction false} UnspacedOfWord(w: string)
    requires NoSpace(w)
    ensures Unspaced(w) == w
  {
    if w != [] {
      UnspacedOfWord(w[1..]);
      assert w == [w[0]] + w[1..];
    }
  }

  lemma {:induction false} UnspacedOfTrimStart(s: string)
    ensures Unspaced(TrimStart(s)) == Unspaced(s)
  {
    if s != [] && IsSpace(s[0]) {
      UnspacedOfTrimStart(s[1..]);
    }
  }

  /** Splitting loses nothing but white space: the fields, put back together,
      are the query's non-white-space characters in their order. */
  lemma {:induction false} SplitWsKeepsContent(s: string)
    ensures Concat(SplitWs(s)) == Unspaced(s)
    decreases |s|
  {
    var w := Word(s);
    var rest := s[|w|..];
    assert s == w + rest;
    UnspacedAppend(w, rest);
    UnspacedOfWord(w);
    if rest != [] {
      AfterWord(s);
      SplitWsKeepsContent(TrimStart(rest));
      UnspacedOfTrimStart(rest);
      assert SplitWs(s) == [w] + SplitWs(TrimStart(rest));
      assert Concat(SplitWs(s)) == w + Concat(SplitWs(TrimStart(rest)));
    } else {
      assert Concat([w]) == w + Concat([]);
    }
  }

  /** No field of a split holds white space. */
  lemma {:induction false} SplitWsFieldsUnspaced(s: string)
    ensures forall i :: 0 <= i < |SplitWs(s)| ==> NoSpace(SplitWs(s)[i])
    decreases |s|
  {
    var w := Word(s);
    var rest := s[|w|..];
    if rest != [] {
      AfterWord(s);
      SplitWsFieldsUnspaced(TrimStart(rest));
    }
    SplitWsStepFields(s, NoSpace);
  }

  /** Splitting a trimmed, non-empty string yields only non-empty fields. */
  lemma {:induction false} SplitWsFieldsNonEmpty(s: string)
    requires s != [] && !IsSpace(s[0]) && !IsSpace(s[|s| - 1])
    ensures forall i :: 0 <= i < |SplitWs(s)| ==> SplitWs(s)[i] != []
    decreases |s|
  {
    var nonEmpty := (f: string) => f != [];
    WordOfNonSpace(s);
    assert nonEmpty(Word(s));
    if s[|Word(s)|..] != [] {
      var t := TrimmedTail(s);
      SplitWsFieldsNonEmpty(t);
      assert forall i :: 0 <= i < |SplitWs(t)| ==> nonEmpty(SplitWs(t)[i]);
    }
    SplitWsStepFields(s, nonEmpty);
  }

  /** What follows the first word of a trimmed string, trimmed in turn, is
      again a shorter trimmed string. */
  lemma TrimmedTail(s: string) returns (t: string)
    requires s != [] && !IsSpace(s[0]) && !IsSpace(s[|s| - 1])
    requires s[|Word(s)|..] != []
    ensures t == TrimStart(s[|Word(s)|..]) && |t| < |s|
    ensures t != [] && !IsSpace(t[0]) && !IsSpace(t[|t| - 1])
  {
    var rest := s[|Word(s)|..];
    AfterWord(s);
    TrimStartKeepsLast(rest);
    t := TrimStart(rest);
  }

  /** A property of the first word and of every later field is a property
      of every field. */
  lemma SplitWsStepFields(s: string, p: string -> bool)
    requires p(Word(s))
    requires s[|Word(s)|..] != [] ==>
      var tail := SplitWs(TrimStart(s[|Word(s)|..]));
      forall i :: 0 <= i < |tail| ==> p(tail[i])
    ensures forall i :: 0 <= i < |SplitWs(s)| ==> p(SplitWs(s)[i])
  {
    var rest := s[|Word(s)|..];
    if rest != [] {
      SplitWsStep(s);
      var tail := SplitWs(TrimStart(rest));
      forall i | 0 <= i < |SplitWs(s)| ensures p(SplitWs(s)[i]) {
        if i > 0 {
          assert SplitWs(s)[i] == tail[i - 1];
        }
      }
    }
  }

  lemma WordOfNonSpace(s: string)
    requires s != [] && !IsSpace(s[0])
    ensures Word(s) != []
  {
  }

  lemma SplitWsStep(s: string)
    requires s[|Word(s)|..] != []
    ensures SplitWs(s) == [Word(s)] + SplitWs(TrimStart(s[|Word(s)|..]))
  {
  }

  lemma TrimStartKeepsLast(s: string)
    requires s != [] && !IsSpace(s[|s| - 1])
    ensures TrimStart(s) != [] && TrimStart(s)[|TrimStart(s)| - 1] == s[|s| - 1]
  {
  }

  /** Words put back together with a non-empty run of white space between
      each two. */
  function Joined(ws: seq<string>, seps: seq<string>): string
    requires |ws| >= 1 && |seps| == |ws| - 1
    decreases |ws|
  {
    if |ws| == 1 then ws[0] else ws[0] + seps[0] + Joined(ws[1..], seps[1..])
  }

  /** Non-empty words without white space, and separators that are
      non-empty and all white space. */
  predicate WordsAndSeparators(ws: seq<string>, seps: seq<string>)
  {
    && |ws| >= 1 && |seps| == |ws| - 1
    && (forall i :: 0 <= i < |ws| ==> ws[i] != [] && NoSpace(ws[i]))
    && (forall i :: 0 <= i < |seps| ==> seps[i] != [] && forall j :: 0 <= j < |seps[i]| ==> IsSpace(seps[i][j]))
  }

  /** `split(/\s+/)` breaks exactly at the runs of white space: joining
      words with white-space separators and splitting gives the words back. */
  lemma {:induction false} SplitWsOfJoined(ws: seq<string>, seps: seq<string>)
    requires WordsAndSeparators(ws, seps)
    ensures SplitWs(Joined(ws, seps)) == ws
    decreases |ws|
  {
    if |ws| == 1 {
      WordOfPrefix(ws[0], []);
      assert ws[0] + [] == ws[0];
    } else {
      WordsAndSeparatorsTail(ws, seps);
      var tail := Joined(ws[1..], seps[1..]);
      assert tail[0] == ws[1][0];
      SplitWsOfSeparated(ws[0], seps[0], tail);
      SplitWsOfJoined(ws[1..], seps[1..]);
      assert ws == [ws[0]] + ws[1..];
    }
  }

  lemma WordsAndSeparatorsTail(ws: seq<string>, seps: seq<string>)
    requires WordsAndSeparators(ws, seps) && |ws| > 1
    ensures WordsAndSeparators(ws[1..], seps[1..])
    ensures Joined(ws, seps) == ws[0] + seps[0] + Joined(ws[1..], seps[1..])
    ensures NoSpace(ws[0]) && ws[1] != []
    ensures seps[0] != [] && forall j :: 0 <= j < |seps[0]| ==> IsSpace(seps[0][j])
  {
    assert forall i :: 0 <= i < |ws| - 1 ==> ws[1..][i] == ws[i + 1];
    assert forall i :: 0 <= i < |seps| - 1 ==> seps[1..][i] == seps[i + 1];
  }

  /** A word, a run of white space, and a rest that starts with no white
      space split into the word and the fields of the rest. */
  lemma SplitWsOfSeparated(w: string, sep: string, tail: string)
    requires NoSpace(w) && sep != [] && forall j :: 0 <= j < |sep| ==> IsSpace(sep[j])
    requires tail == [] || !IsSpace(tail[0])
    ensures SplitWs(w + sep + tail) == [w] + SplitWs(tail)
  {
    var s := w + sep + tail;
    assert s == w + (sep + tail);
    assert (sep + tail)[0] == sep[0];
    WordOfPrefix(w, sep + tail);
    assert s[|w|..] == sep + tail;
    TrimStartOfSpaces(sep, tail);
    SplitWsStep(s);
  }

  /** Trimming the end drops a run of white space after a text that does
      not end with white space. */
  lemma {:induction false} TrimEndOfSpaces(t: string, sep: string)
    requires forall j :: 0 <= j < |sep| ==> IsSpace(sep[j])
    requires t == [] || !IsSpace(t[|t| - 1])
    ensures TrimEnd(t + sep) == t
    decreases |sep|
  {
    if sep == [] {
      assert t + sep == t;
    } else {
      var u := t + sep;
      assert u[|u| - 1] == sep[|sep| - 1];
      assert u[..|u| - 1] == t + sep[..|sep| - 1];
      TrimEndOfSpaces(t, sep[..|sep| - 1]);
    }
  }

  /** `trim()` of words joined by white space, with white space around
      them, is the joined words. */
  lemma TrimOfPadded(pre: string, ws: seq<string>, seps: seq<string>, post: string)
    requires WordsAndSeparators(ws, seps)
    requires forall j :: 0 <= j < |pre| ==> IsSpace(pre[j])
    requires forall j :: 0 <= j < |post| ==> IsSpace(post[j])
    ensures Trim(pre + Joined(ws, seps) + post) == Joined(ws, seps)
  {
    var s := Joined(ws, seps);
    JoinedEnds(ws, seps);
    assert pre + s + post == pre + (s + post);
    assert (s + post)[0] == s[0];
    TrimStartOfSpaces(pre, s + post);
    TrimEndOfSpaces(s, post);
  }

  /** A joined string neither starts nor ends with white space. */
  lemma {:induction false} JoinedEnds(ws: seq<string>, seps: seq<string>)
    requires WordsAndSeparators(ws, seps)
    ensures var s := Joined(ws, seps); s != [] && !IsSpace(s[0]) && !IsSpace(s[|s| - 1])
    decreases |ws|
  {
    if |ws| > 1 {
      WordsAndSeparatorsTail(ws, seps);
      JoinedEnds(ws[1..], seps[1..]);
      var tail := Joined(ws[1..], seps[1..]);
      var s := Joined(ws, seps);
      assert s[0] == ws[0][0];
      assert s[|s| - 1] == tail[|tail| - 1];
    }
  }

  predicate NoUpper(s: string)
  {
    forall i :: 0 <= i < |s| ==> !('A' <= s[i] <= 'Z')
  }

  /** Words without upper-case ASCII letters join into a string without
      them: white space holds none. */
  lemma {:induction false} JoinedNoUpper(ws: seq<string>, seps: seq<string>)
    requires WordsAndSeparators(ws, seps) && forall i :: 0 <= i < |ws| ==> NoUpper(ws[i])
    ensures NoUpper(Joined(ws, seps))
    decreases |ws|
  {
    if |ws| > 1 {
      WordsAndSeparatorsTail(ws, seps);
      assert forall i :: 0 <= i < |ws| - 1 ==> ws[1..][i] == ws[i + 1];
      JoinedNoUpper(ws[1..], seps[1..]);
      assert NoUpper(seps[0]);
      assert NoUpper(ws[0]);
      NoUpperAppend(ws[0], seps[0]);
      NoUpperAppend(ws[0] + seps[0], Joined(ws[1..], seps[1..]));
    }
  }

  lemma NoUpperAppend(a: string, b: string)
    requires NoUpper(a) && NoUpper(b)
    ensures NoUpper(a + b)
  {
    assert forall i :: |a| <= i < |a + b| ==> (a + b)[i] == b[i - |a|];
  }

  /** The first word of a space-free prefix followed by white space, or by
      nothing, is that prefix. */
  lemma {:induction false} WordOfPrefix(w: string, rest: string)
    requires NoSpace(w) && (rest == [] || IsSpace(rest[0]))
    ensures Word(w + rest) == w
    decreases |w|
  {
    if w == [] {
      assert w + rest == rest;
    } else {
      assert (w + rest)[0] == w[0];
      assert (w + rest)[1..] == w[1..] + rest;
      WordOfPrefix(w[1..], rest);
      assert w == [w[0]] + w[1..];
    }
  }

  /** Trimming the start drops a run of white space and keeps whatever
      follows it when that does not start with white space. */
  lemma {:induction false} TrimStartOfSpaces(sep: string, t: string)
    requires forall j :: 0 <= j < |sep| ==> IsSpace(sep[j])
    requires t == [] || !IsSpace(t[0])
    ensures TrimStart(sep + t) == t
    decreases |sep|
  {
    if sep == [] {
      assert sep + t == t;
    } else {
      assert (sep + t)[0] == sep[0];
      assert (sep + t)[1..] == sep[1..] + t;
      TrimStartOfSpaces(sep[1..], t);
    }
  }

  // ---------------------------------------------------------------------
  // ASCII case folding
  // ---------------------------------------------------------------------

  function LowerChar(c: char): char
  {
    if 'A' <= c <= 'Z' then (c as int + 32) as char else c
  }

  /** ASCII lower-casing, which is what SQLite's built-in `LOWER()` does and
      what `toLowerCase()` does to ASCII text: each upper-case ASCII letter
      becomes its lower-case letter, every other character stays, and white
      space is kept. */
  function LowerAscii(s: string): (r: string)
    ensures |r| == |s|
    ensures forall i :: 0 <= i < |r| ==> !('A' <= r[i] <= 'Z')
    ensures forall i :: 0 <= i < |s| && 'A' <= s[i] <= 'Z' ==> r[i] as int == s[i] as int + 32
    ensures forall i :: 0 <= i < |s| && !('A' <= s[i] <= 'Z') ==> r[i] == s[i]
    ensures forall i :: 0 <= i < |s| ==> (IsSpace(r[i]) <==> IsSpace(s[i]))
  {
    seq(|s|, i requires 0 <= i < |s| => LowerChar(s[i]))
  }

  lemma LowerAsciiIdempotent(s: string)
    ensures LowerAscii(LowerAscii(s)) == LowerAscii(s)
  {
  }

  /** Text without upper-case ASCII letters is its own lower-casing. */
  lemma LowerAsciiOfLower(s: string)
    requires NoUpper(s)
    ensures LowerAscii(s) == s
  {
    var r := LowerAscii(s);
    assert forall i :: 0 <= i < |s| ==> r[i] == s[i];
  }

  // ---------------------------------------------------------------------
  // SQLite LIKE
  // ---------------------------------------------------------------------

  /** `s LIKE p` without an ESCAPE clause: `%` matches any run of
      characters, `_` any one character, every other pattern character
      itself. SQLite's LIKE also ignores ASCII case; both operands the
      store passes (a `LOWER()`ed column and a lower-cased term) have no
      upper-case ASCII letter, so that folding changes nothing and is left
      out here. */
  predicate Like(p: string, s: string)
    decreases |p|, |s|
  {
    if p == [] then s == []
    else if p[0] == '%' then Like(p[1..], s) || (s != [] && Like(p, s[1..]))
    else s != [] && (p[0] == '_' || p[0] == s[0]) && Like(p[1..], s[1..])
  }

  predicate NoWildcards(t: string)
  {
    forall i :: 0 <= i < |t| ==> t[i] != '%' && t[i] != '_'
  }

  predicate IsPrefixOf(t: string, u: string)
  {
    |t| <= |u| && u[..|t|] == t
  }

  /** `t` occurs somewhere in `s`. */
  predicate IsSubstring(t: string, s: string)
  {
    exists i :: 0 <= i <= |s| && IsPrefixOf(t, s[i..])
  }

  lemma {:induction false} LikeAnything(s: string)
    ensures Like("%", s)
  {
    assert "%"[1..] == [];
    if s != [] {
      LikeAnything(s[1..]);
    }
  }

  /** A wildcard-free term followed by `%` matches exactly the strings the
      term is a prefix of. */
  lemma {:induction false} LikePrefix(t: string, s: string)
    requires NoWildcards(t)
    ensures Like(t + "%", s) <==> IsPrefixOf(t, s)
  {
    if t == [] {
      assert t + "%" == "%";
      LikeAnything(s);
    } else {
      var p := t + "%";
      assert p[0] == t[0] && p[1..] == t[1..] + "%";
      if s != [] {
        LikePrefix(t[1..], s[1..]);
        if |t| <= |s| {
          assert s[..|t|] == [s[0]] + s[1..][..|t| - 1];
          assert t == [t[0]] + t[1..];
        }
      }
    }
  }

  /** A leading `%` lets the rest of the pattern match any suffix. */
  lemma {:induction false} LikeLeadingPercent(q: string, s: string)
    ensures Like("%" + q, s) <==> exists i :: 0 <= i <= |s| && Like(q, s[i..])
  {
    var p := "%" + q;
    assert p[0] == '%' && p[1..] == q;
    if s == [] {
      if Like(p, s) {
        assert Like(q, s[0..]);
      }
    } else {
      LikeLeadingPercent(q, s[1..]);
      if Like(p, s) {
        if Like(q, s) {
          assert Like(q, s[0..]);
        } else {
          var j :| 0 <= j <= |s[1..]| && Like(q, s[1..][j..]);
          assert s[1..][j..] == s[j + 1..];
        }
      }
      if exists i :: 0 <= i <= |s| && Like(q, s[i..]) {
        var i :| 0 <= i <= |s| && Like(q, s[i..]);
        if i == 0 {
          assert s[0..] == s;
        } else {
          assert s[i..] == s[1..][i - 1..];
        }
      }
    }
  }

  /** The pattern `%term%` built for each search term matches exactly the
      strings that contain the term, as long as the term holds neither `%`
      nor `_`. */
  lemma LikeContains(t: string, s: string)
    requires NoWildcards(t)
    ensures Like("%" + t + "%", s) <==> IsSubstring(t, s)
  {
    assert "%" + t + "%" == "%" + (t + "%");
    LikeLeadingPercent(t + "%", s);
    forall i | 0 <= i <= |s|
      ensures Like(t + "%", s[i..]) <==> IsPrefixOf(t, s[i..])
    {
      LikePrefix(t, s[i..]);
    }
  }

  // ---------------------------------------------------------------------
  // Decimal spelling of a row id
  // ---------------------------------------------------------------------

  predicate IsDigit(c: char)
  {
    '0' <= c <= '9'
  }

  function DigitChar(d: nat): char
    requires d < 10
  {
    ('0' as int + d) as char
  }

  /** `n.toString()` for a non-negative integer: decimal digits, with no
      leading zero. */
  function DecimalString(n: nat): (r: string)
    ensures r != [] && forall i :: 0 <= i < |r| ==> IsDigit(r[i])
    ensures r[0] == '0' <==> n == 0
    ensures r[0] == '0' ==> |r| == 1
  {
    if n < 10 then [DigitChar(n)] else DecimalString(n / 10) + [DigitChar(n % 10)]
  }

  /** The number a string of decimal digits spells. */
  function DecimalValue(s: string): nat
    requires forall i :: 0 <= i < |s| ==> IsDigit(s[i])
  {
    if s == [] then 0
    else
      assert IsDigit(s[|s| - 1]);
      DecimalValue(s[..|s| - 1]) * 10 + (s[|s| - 1] as int - '0' as int)
  }

  lemma {:induction false} DecimalRoundTrip(n: nat)
    ensures DecimalValue(DecimalString(n)) == n
  {
    if n >= 10 {
      var d := DecimalString(n / 10);
      DecimalRoundTrip(n / 10);
      assert (d + [DigitChar(n % 10)])[..|d|] == d;
    }
  }
}
