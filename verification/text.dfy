/** The parts of Python's `str` the table store relies on: stripping,
    splitting on one character, joining, line splitting as `readlines` does
    it, ASCII upper-casing and `find`. */
module Text {
  import opened Base

  /** Python's `str.isspace()`: the characters `strip()` and `split()` without
      arguments treat as whitespace. */
  predicate IsSpace(c: char)
  {
    || ('\t' <= c <= '\r')
    || ('\U{1C}' <= c <= ' ')
    || c == '\U{85}' || c == '\U{A0}' || c == '\U{1680}'
    || ('\U{2000}' <= c <= '\U{200A}')
    || c == '\U{2028}' || c == '\U{2029}' || c == '\U{202F}' || c == '\U{205F}'
    || c == '\U{3000}'
  }

  /** Neither end of `s` is a character `drop` selects. */
  predicate Trimmed(s: string, drop: char -> bool)
  {
    |s| == 0 || (!drop(s[0]) && !drop(s[|s| - 1]))
  }

  /** `s.lstrip(chars)`, with `drop` telling which characters are in `chars`. */
  function TrimLeft(s: string, drop: char -> bool): (r: string)
    ensures |r| <= |s| && r == s[|s| - |r|..]
    ensures |r| == 0 || !drop(r[0])
    ensures forall i :: 0 <= i < |s| - |r| ==> drop(s[i])
  {
    if |s| > 0 && drop(s[0]) then
      var r := TrimLeft(s[1..], drop);
      assert forall i :: 1 <= i < |s| - |r| ==> s[i] == s[1..][i - 1];
      r
    else s
  }

  /** `s.rstrip(chars)`. */
  function TrimRight(s: string, drop: char -> bool): (r: string)
    ensures |r| <= |s| && r == s[..|r|]
    ensures |r| == 0 || !drop(r[|r| - 1])
    ensures forall i :: |r| <= i < |s| ==> drop(s[i])
  {
    if |s| > 0 && drop(s[|s| - 1]) then
      var r := TrimRight(s[..|s| - 1], drop);
      assert forall i :: |r| <= i < |s| - 1 ==> s[i] == s[..|s| - 1][i];
      r
    else s
  }

  /** `s.strip(chars)`: the longest run of selected characters goes from each
      end; a string whose ends are already unselected comes back unchanged. */
  function StripBy(s: string, drop: char -> bool): (r: string)
    ensures Trimmed(r, drop)
    ensures Trimmed(s, drop) ==> r == s
    ensures forall c :: c in r ==> c in s
  {
    TrimRight(TrimLeft(s, drop), drop)
  }

  /** `s.strip()`. */
  function Strip(s: string): (r: string)
    ensures Trimmed(r, IsSpace)
    ensures Trimmed(s, IsSpace) ==> r == s
    ensures forall c :: c in r ==> c in s
  {
    StripBy(s, IsSpace)
  }

  /** Dropped characters in front of a string that starts with a kept one
      all go. */
  lemma {:induction false} TrimLeftPrefix(a: string, y: string, drop: char -> bool)
    requires forall i :: 0 <= i < |a| ==> drop(a[i])
    requires |y| == 0 || !drop(y[0])
    ensures TrimLeft(a + y, drop) == y
    decreases |a|
  {
    if |a| == 0 {
      assert a + y == y;
    } else {
      assert (a + y)[1..] == a[1..] + y;
      TrimLeftPrefix(a[1..], y, drop);
    }
  }

  /** Dropped characters after a string that ends with a kept one all go. */
  lemma {:induction false} TrimRightSuffix(y: string, b: string, drop: char -> bool)
    requires forall i :: 0 <= i < |b| ==> drop(b[i])
    requires |y| == 0 || !drop(y[|y| - 1])
    ensures TrimRight(y + b, drop) == y
    decreases |b|
  {
    if |b| == 0 {
      assert y + b == y;
    } else {
      var b' := b[..|b| - 1];
      assert (y + b)[..|y + b| - 1] == y + b';
      TrimRightSuffix(y, b', drop);
    }
  }

  /** Stripping a string padded on both sides with dropped characters gives
      back the string, when its own ends are kept characters. */
  lemma {:induction false} StripSurrounded(a: string, x: string, b: string, drop: char -> bool)
    requires forall i :: 0 <= i < |a| ==> drop(a[i])
    requires forall i :: 0 <= i < |b| ==> drop(b[i])
    requires Trimmed(x, drop)
    ensures StripBy(a + x + b, drop) == x
  {
    if |x| == 0 {
      assert a + x + b == (a + b) + "";
      TrimLeftPrefix(a + b, "", drop);
    } else {
      assert a + x + b == a + (x + b);
      TrimLeftPrefix(a, x + b, drop);
      TrimRightSuffix(x, b, drop);
    }
  }

  /** `s.replace(x, "")` for every character `x` that `drop` selects. */
  function RemoveAll(s: string, drop: char -> bool): (r: string)
    ensures forall c :: c in r ==> c in s && !drop(c)
    ensures (forall c :: c in s ==> !drop(c)) ==> r == s
  {
    if |s| == 0 then ""
    else (if drop(s[0]) then "" else [s[0]]) + RemoveAll(s[1..], drop)
  }

  lemma {:induction false} RemoveAllAppend(a: string, b: string, drop: char -> bool)
    ensures RemoveAll(a + b, drop) == RemoveAll(a, drop) + RemoveAll(b, drop)
    decreases |a|
  {
    if |a| == 0 {
      assert a + b == b;
    } else {
      assert (a + b)[0] == a[0] && (a + b)[1..] == a[1..] + b;
      RemoveAllAppend(a[1..], b, drop);
    }
  }

  /** `sep.join(parts)`. */
  function Join(parts: seq<string>, sep: char): (s: string)
    ensures |parts| == 1 ==> s == parts[0]
  {
    if |parts| == 0 then ""
    else if |parts| == 1 then parts[0]
    else Join(parts[..|parts| - 1], sep) + [sep] + Last(parts)
  }

  lemma JoinSnoc(parts: seq<string>, x: string, sep: char)
    requires |parts| >= 1
    ensures Join(parts + [x], sep) == Join(parts, sep) + [sep] + x
  {
    assert (parts + [x])[..|parts|] == parts;
  }

  lemma JoinExtendLast(parts: seq<string>, c: char, sep: char)
    requires |parts| >= 1
    ensures Join(parts[..|parts| - 1] + [Last(parts) + [c]], sep) == Join(parts, sep) + [c]
  {
    var init := parts[..|parts| - 1];
    if |parts| > 1 {
      JoinSnoc(init, Last(parts) + [c], sep);
      assert parts == init + [Last(parts)];
      JoinSnoc(init, Last(parts), sep);
    }
  }

  /** Python's `s.split(sep)` for a one-character separator: the pieces
      between separators, none containing `sep`. */
  function Split(s: string, sep: char): (parts: seq<string>)
    ensures |parts| >= 1
    ensures forall k :: 0 <= k < |parts| ==> sep !in parts[k]
    decreases |s|
  {
    if |s| == 0 then [""]
    else
      var prev := Split(s[..|s| - 1], sep);
      var c := s[|s| - 1];
      if c == sep then prev + [""]
      else prev[..|prev| - 1] + [Last(prev) + [c]]
  }

  /** `Join` puts the pieces back together into the text split. */
  lemma {:induction false} JoinSplit(s: string, sep: char)
    ensures Join(Split(s, sep), sep) == s
    decreases |s|
  {
    if |s| > 0 {
      var a := s[..|s| - 1];
      var c := s[|s| - 1];
      var prev := Split(a, sep);
      JoinSplit(a, sep);
      assert s == a + [c];
      if c == sep {
        JoinSnoc(prev, "", sep);
      } else {
        JoinExtendLast(prev, c, sep);
      }
    }
  }

  /** A character absent from the text is absent from every piece. */
  lemma {:induction false} SplitAvoids(s: string, sep: char, c: char)
    requires c !in s
    ensures forall k :: 0 <= k < |Split(s, sep)| ==> c !in Split(s, sep)[k]
    decreases |s|
  {
    if |s| > 0 {
      var a := s[..|s| - 1];
      assert forall x :: x in a ==> x in s;
      SplitAvoids(a, sep, c);
      var prev := Split(a, sep);
      assert forall k :: 0 <= k < |prev| ==> c !in prev[k];
      assert c != s[|s| - 1];
      assert forall x :: x in Last(prev) + [s[|s| - 1]] ==> x in Last(prev) || x == s[|s| - 1];
    }
  }

  lemma SplitSep(a: string, sep: char)
    ensures Split(a + [sep], sep) == Split(a, sep) + [""]
  {
    assert (a + [sep])[..|a|] == a;
  }

  /** A character other than `sep` lengthens the last piece. */
  lemma SplitOther(a: string, c: char, sep: char)
    requires c != sep
    ensures Split(a + [c], sep) == Split(a, sep)[..|Split(a, sep)| - 1] + [Last(Split(a, sep)) + [c]]
  {
    assert (a + [c])[..|a|] == a;
  }

  lemma ExtendLastTwice(p: seq<string>, w: string, c: char)
    requires |p| >= 1
    ensures var q := p[..|p| - 1] + [Last(p) + w];
            q[..|q| - 1] + [Last(q) + [c]] == p[..|p| - 1] + [Last(p) + (w + [c])]
  {
    var q := p[..|p| - 1] + [Last(p) + w];
    assert q[..|q| - 1] == p[..|p| - 1];
    assert Last(p) + w + [c] == Last(p) + (w + [c]);
  }

  /** Text free of `sep` appended to `a` only lengthens the last piece. */
  lemma {:induction false} SplitAppend(a: string, v: string, sep: char)
    requires sep !in v
    ensures Split(a + v, sep)
            == Split(a, sep)[..|Split(a, sep)| - 1] + [Last(Split(a, sep)) + v]
    decreases |v|
  {
    var p := Split(a, sep);
    if |v| == 0 {
      assert a + v == a;
      assert Last(p) + v == Last(p);
      InitLast(p);
    } else {
      var w := v[..|v| - 1];
      var c := v[|v| - 1];
      assert v == w + [c];
      assert a + v == (a + w) + [c];
      assert c in v;
      assert forall x :: x in w ==> x in v;
      SplitAppend(a, w, sep);
      SplitOther(a + w, c, sep);
      ExtendLastTwice(p, w, c);
    }
  }

  lemma {:induction false} SplitJoin(parts: seq<string>, sep: char)
    requires |parts| >= 1
    requires forall k :: 0 <= k < |parts| ==> sep !in parts[k]
    ensures Split(Join(parts, sep), sep) == parts
    decreases |parts|
  {
    if |parts| == 1 {
      SplitAppend("", parts[0], sep);
      assert "" + parts[0] == parts[0];
    } else {
      var init := parts[..|parts| - 1];
      SplitJoin(init, sep);
      assert Join(parts, sep) == Join(init, sep) + [sep] + Last(parts);
      SplitJoinStep(init, Last(parts), sep);
      assert parts == init + [Last(parts)];
    }
  }

  /** One more part after a separator splits off as one more piece. */
  lemma {:induction false} SplitJoinStep(init: seq<string>, last: string, sep: char)
    requires |init| >= 1 && Split(Join(init, sep), sep) == init
    requires sep !in last
    ensures Split(Join(init, sep) + [sep] + last, sep) == init + [last]
  {
    var j := Join(init, sep) + [sep];
    SplitSep(Join(init, sep), sep);
    SplitAppend(j, last, sep);
    assert Split(j, sep) == init + [""];
    assert (init + [""])[..|init|] == init;
    assert "" + last == last;
  }

  /** No piece of the join contains `c` unless some part or the separator does. */
  lemma {:induction false} JoinAvoids(parts: seq<string>, sep: char, c: char)
    requires c != sep
    requires forall k :: 0 <= k < |parts| ==> c !in parts[k]
    ensures c !in Join(parts, sep)
    decreases |parts|
  {
    if |parts| > 1 {
      JoinAvoids(parts[..|parts| - 1], sep, c);
    }
  }

  /** A join of trimmed parts around an unselected separator is trimmed. */
  lemma {:induction false} JoinTrimmed(parts: seq<string>, sep: char, drop: char -> bool)
    requires !drop(sep)
    requires forall k :: 0 <= k < |parts| ==> Trimmed(parts[k], drop)
    ensures Trimmed(Join(parts, sep), drop)
    decreases |parts|
  {
    if |parts| > 1 {
      var init := parts[..|parts| - 1];
      JoinTrimmed(init, sep, drop);
      var j := Join(init, sep);
      var s := j + [sep] + Last(parts);
      assert s[0] == if |j| > 0 then j[0] else sep;
      assert s[|s| - 1] == if |Last(parts)| > 0 then Last(parts)[|Last(parts)| - 1] else sep;
    }
  }

  /** Text holding no line-end character. */
  predicate OneLine(s: string)
  {
    '\n' !in s && '\r' !in s
  }

  /** Joining one-line parts with a separator that is no line end gives
      one line. */
  lemma {:induction false} JoinOneLine(parts: seq<string>, sep: char)
    requires sep != '\n' && sep != '\r'
    requires forall k :: 0 <= k < |parts| ==> OneLine(parts[k])
    ensures OneLine(Join(parts, sep))
  {
    JoinAvoids(parts, sep, '\n');
    JoinAvoids(parts, sep, '\r');
  }

  /** Text-mode reading with universal newlines: `\r\n` and a lone `\r`
      both become `\n`. */
  function Newlines(s: string): (r: string)
    ensures '\r' !in r
    ensures |r| == 0 <==> |s| == 0
    ensures '\r' !in s ==> r == s
    decreases |s|
  {
    if |s| == 0 then ""
    else if s[0] != '\r' then [s[0]] + Newlines(s[1..])
    else if |s| > 1 && s[1] == '\n' then "\n" + Newlines(s[2..])
    else "\n" + Newlines(s[1..])
  }

  /** The lines `f.readlines()` yields in text mode, each with its line end
      dropped (which is all `strip()` would later remove of it). Text not
      ending in a line end still gives a last line. */
  function Lines(s: string): (ls: seq<string>)
    ensures |ls| == 0 <==> |s| == 0
    ensures forall k :: 0 <= k < |ls| ==> OneLine(ls[k])
  {
    var n := Newlines(s);
    if |n| == 0 then []
    else
      var parts := Split(n, '\n');
      SplitAvoids(n, '\n', '\r');
      if Last(parts) == "" then parts[..|parts| - 1] else parts
  }

  /** What writing each line followed by `\n` puts in a file. */
  function LinesText(ls: seq<string>): string
  {
    if |ls| == 0 then "" else Join(ls, '\n') + "\n"
  }

  /** Reading back what was written line by line gives the same lines, when
      no line holds a line-end character. */
  lemma LinesRoundTrip(ls: seq<string>)
    requires forall k :: 0 <= k < |ls| ==> OneLine(ls[k])
    ensures Lines(LinesText(ls)) == ls
  {
    if |ls| > 0 {
      JoinAvoids(ls, '\n', '\r');
      assert '\r' !in LinesText(ls);
      SplitSep(Join(ls, '\n'), '\n');
      SplitJoin(ls, '\n');
      assert (ls + [""])[..|ls|] == ls;
    }
  }

  /** The three line ends universal-newline reading recognises. */
  predicate LineEnd(e: string)
  {
    e == "\n" || e == "\r\n" || e == "\r"
  }

  /** Each line followed by the line end `e`. */
  function Terminated(ls: seq<string>, e: string): (s: string)
    ensures |ls| > 0 && |e| > 0 ==> |s| > 0 && s[|s| - 1] == e[|e| - 1]
  {
    if |ls| == 0 then "" else Terminated(ls[..|ls| - 1], e) + Last(ls) + e
  }

  /** One step of `Newlines`: the first character, or a `\r\n` pair, or a
      lone `\r`, becomes one output character. */
  lemma NewlinesStep(s: string)
    requires |s| > 0
    ensures s[0] != '\r' ==> Newlines(s) == [s[0]] + Newlines(s[1..])
    ensures s[0] == '\r' && |s| > 1 && s[1] == '\n' ==> Newlines(s) == "\n" + Newlines(s[2..])
    ensures s[0] == '\r' && !(|s| > 1 && s[1] == '\n') ==> Newlines(s) == "\n" + Newlines(s[1..])
  {
  }

  /** Dropping `k` leading characters of `a + b` drops them from `a`. */
  lemma DropAppend(a: string, b: string, k: nat)
    requires k <= |a|
    ensures (a + b)[k..] == a[k..] + b
  {
  }

  /** Two strings that start with the same `head` differ by what follows
      it: `whole` is `left` followed by `right`. */
  lemma Regroup(whole: string, left: string, right: string, head: string, rest: string, restLeft: string)
    requires whole == head + rest && left == head + restLeft && rest == restLeft + right
    ensures whole == left + right
  {
  }

  /** Line ends translate piecewise, unless the cut splits a `\r\n` pair. */
  lemma {:induction false} NewlinesAppend(a: string, b: string)
    requires !(|a| > 0 && a[|a| - 1] == '\r' && |b| > 0 && b[0] == '\n')
    ensures Newlines(a + b) == Newlines(a) + Newlines(b)
    decreases |a|
  {
    if |a| == 0 {
      assert a + b == b;
    } else {
      var ab := a + b;
      NewlinesStep(a);
      NewlinesStep(ab);
      assert ab[0] == a[0];
      var k := if a[0] == '\r' && |a| > 1 && a[1] == '\n' then 2 else 1;
      if k == 2 {
        assert ab[1] == '\n';
      } else if |a| > 1 {
        assert ab[1] == a[1];
      }
      NewlinesAppend(a[k..], b);
      DropAppend(a, b, k);
      Regroup(Newlines(ab), Newlines(a), Newlines(b), if a[0] == '\r' then "\n" else [a[0]],
              Newlines(ab[k..]), Newlines(a[k..]));
    }
  }

  /** A line without line-end characters, ended by any line end, reads as
      the line ended by `\n`. */
  lemma {:induction false} NewlinesLineEnd(line: string, e: string)
    requires OneLine(line) && LineEnd(e)
    ensures Newlines(line + e) == line + "\n"
  {
    NewlinesAppend(line, e);
    if e == "\r\n" {
      assert e[2..] == "";
    } else {
      assert e[1..] == "";
    }
  }

  /** Universal newlines turn lines ended by any one line end into lines
      ended by `\n`. */
  lemma {:induction false} NewlinesTerminated(ls: seq<string>, e: string)
    requires forall k :: 0 <= k < |ls| ==> OneLine(ls[k])
    requires LineEnd(e)
    ensures Newlines(Terminated(ls, e)) == LinesText(ls)
    decreases |ls|
  {
    if |ls| > 0 {
      var init := ls[..|ls| - 1];
      NewlinesTerminated(init, e);
      TerminatedSnoc(init, Last(ls), e);
      NewlinesLineEnd(Last(ls), e);
      LinesTextSnoc(ls);
    }
  }

  /** Adding one more terminated line adds its translation. */
  lemma {:induction false} TerminatedSnoc(init: seq<string>, line: string, e: string)
    requires OneLine(line) && LineEnd(e)
    ensures Newlines(Terminated(init + [line], e)) == Newlines(Terminated(init, e)) + Newlines(line + e)
  {
    var ls := init + [line];
    assert ls[..|ls| - 1] == init;
    var a := Terminated(init, e);
    var b := line + e;
    assert Terminated(ls, e) == a + b;
    assert (|b| > 0 && b[0] != '\n') || e == "\n";
    NewlinesAppend(a, b);
  }

  lemma {:induction false} LinesTextSnoc(ls: seq<string>)
    requires |ls| > 0
    ensures LinesText(ls) == LinesText(ls[..|ls| - 1]) + Last(ls) + "\n"
  {
    var init := ls[..|ls| - 1];
    if |init| > 0 {
      assert Join(ls, '\n') == Join(init, '\n') + "\n" + Last(ls);
    }
  }

  /** `readlines` splits at `\r\n` and at a lone `\r` as it does at `\n`:
      lines written with any one of the three line ends read back as those
      lines. */
  lemma {:induction false} LineEndsRoundTrip(ls: seq<string>, e: string)
    requires forall k :: 0 <= k < |ls| ==> OneLine(ls[k])
    requires LineEnd(e)
    ensures Lines(Terminated(ls, e)) == ls
  {
    NewlinesTerminated(ls, e);
    LinesRoundTrip(ls);
    JoinAvoids(ls, '\n', '\r');
    assert '\r' !in LinesText(ls);
  }

  /** `str.upper()` restricted to ASCII letters. */
  function UpperChar(c: char): char
  {
    if 'a' <= c <= 'z' then (c as int - 32) as char else c
  }

  function Upper(s: string): (u: string)
    ensures |u| == |s|
    ensures forall i :: 0 <= i < |s| ==> u[i] == UpperChar(s[i])
  {
    seq(|s|, i requires 0 <= i < |s| => UpperChar(s[i]))
  }

  lemma UpperSlice(s: string, a: nat, b: nat)
    requires a <= b <= |s|
    ensures Upper(s[a..b]) == Upper(s)[a..b]
  {
  }

  /** `u.startswith(p)`. */
  predicate StartsWith(u: string, p: string)
  {
    |p| <= |u| && u[..|p|] == p
  }

  predicate MatchesAt(text: string, pat: string, i: nat)
  {
    i + |pat| <= |text| && text[i..i + |pat|] == pat
  }

  function FindFrom(text: string, pat: string, from: nat): (r: Option<nat>)
    ensures r.Some? ==> from <= r.value && MatchesAt(text, pat, r.value)
    ensures r.Some? ==> forall j :: from <= j < r.value ==> !MatchesAt(text, pat, j)
    ensures r.None? ==> forall j :: from <= j ==> !MatchesAt(text, pat, j)
    decreases |text| - from
  {
    if from + |pat| > |text| then None
    else if MatchesAt(text, pat, from) then Some(from)
    else FindFrom(text, pat, from + 1)
  }

  /** Python's `text.find(pat)`: the lowest index where `pat` occurs, or none. */
  function Find(text: string, pat: string): (r: Option<nat>)
    ensures r.Some? ==> MatchesAt(text, pat, r.value)
    ensures r.Some? ==> forall j :: 0 <= j < r.value ==> !MatchesAt(text, pat, j)
    ensures r.None? ==> forall j :: 0 <= j ==> !MatchesAt(text, pat, j)
  {
    FindFrom(text, pat, 0)
  }

  /** The longest prefix of `s` without whitespace. */
  function Word(s: string): (w: string)
    ensures |w| <= |s| && s[..|w|] == w
    ensures forall c :: c in w ==> !IsSpace(c)
    ensures |w| < |s| ==> IsSpace(s[|w|])
  {
    if |s| == 0 || IsSpace(s[0]) then "" else [s[0]] + Word(s[1..])
  }

  /** `s.split()[0]`: the first run of non-whitespace characters, which is
      there whenever `s` holds a non-whitespace character. */
  function FirstWord(s: string): (w: string)
    ensures forall c :: c in w ==> !IsSpace(c)
    ensures (exists i :: 0 <= i < |s| && !IsSpace(s[i])) ==> |w| > 0
    ensures var u := TrimLeft(s, IsSpace);
            |w| <= |u| && u[..|w|] == w && (|w| < |u| ==> IsSpace(u[|w|]))
  {
    Word(TrimLeft(s, IsSpace))
  }
}
