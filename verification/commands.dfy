/** The pure string handling of database_cli.py: the quote-aware splitting
    of an INSERT's value list, `col = value` conditions, the column and key
    specifications of CREATE TABLE, and the tail of a SELECT. */
module Commands {
  import opened Base
  import opened Text

  predicate IsQuote(c: char)
  {
    c == '\''
  }

  predicate IsParen(c: char)
  {
    c == '(' || c == ')'
  }

  /** `[p.strip() for p in ps]`. */
  function StripAll(ps: seq<string>): (r: seq<string>)
    ensures |r| == |ps|
    ensures forall i :: 0 <= i < |ps| ==> r[i] == Strip(ps[i])
  {
    seq(|ps|, i requires 0 <= i < |ps| => Strip(ps[i]))
  }

  lemma StripAllSnoc(ps: seq<string>)
    requires |ps| > 0
    ensures StripAll(ps[..|ps| - 1]) + [Strip(Last(ps))] == StripAll(ps)
  {
    var a := StripAll(ps[..|ps| - 1]) + [Strip(Last(ps))];
    forall i | 0 <= i < |ps| ensures a[i] == StripAll(ps)[i] {
      if i < |ps| - 1 {
        assert a[i] == StripAll(ps[..|ps| - 1])[i];
      }
    }
  }

  // ------------------------------------------------------------ parse_values

  /** The state of `parse_values`' loop: the values finished so far, the
      value being read, and whether a quote is open. */
  datatype Scan = Scan(parts: seq<string>, val: string, inQuote: bool)

  const Start: Scan := Scan([], "", false)

  /** `val.strip().strip("'")`. */
  function Clean(v: string): string
  {
    StripBy(Strip(v), IsQuote)
  }

  /** One character: a quote opens or closes a quoted stretch and is not
      kept; a comma outside quotes ends the value; anything else is kept. */
  function Feed(st: Scan, ch: char): Scan
  {
    if ch == '\'' && !st.inQuote then st.(inQuote := true)
    else if ch == '\'' && st.inQuote then st.(inQuote := false)
    else if ch == ',' && !st.inQuote then Scan(st.parts + [Clean(st.val)], "", st.inQuote)
    else st.(val := st.val + [ch])
  }

  /** A value without quotes and stripped: what `parse_values` yields, and
      what a quoted value can hold to come back as written. */
  predicate PlainValue(v: string)
  {
    '\'' !in v && Trimmed(v, IsSpace)
  }

  /** No quote has been kept anywhere, and the finished values are stripped. */
  predicate Unquoted(st: Scan)
  {
    && '\'' !in st.val
    && forall k :: 0 <= k < |st.parts| ==> PlainValue(st.parts[k])
  }

  /** Cleaning a value without quotes is stripping it. */
  lemma {:induction false} CleanUnquoted(v: string)
    requires '\'' !in v
    ensures Clean(v) == Strip(v)
    ensures PlainValue(Clean(v))
  {
    var s := Strip(v);
    assert '\'' !in s;
    assert Trimmed(s, IsQuote) by {
      if |s| > 0 {
        assert s[0] in s && s[|s| - 1] in s;
      }
    }
  }

  /** The loop over the characters of `s`, from state `st`. */
  function FeedAll(st: Scan, s: string): Scan
    decreases |s|
  {
    if |s| == 0 then st else FeedAll(Feed(st, s[0]), s[1..])
  }

  lemma {:induction false} FeedUnquoted(st: Scan, c: char)
    requires Unquoted(st)
    ensures Unquoted(Feed(st, c))
  {
    if c == '\'' {
      assert Feed(st, c) == st.(inQuote := !st.inQuote);
    } else if c == ',' && !st.inQuote {
      assert Feed(st, c) == Scan(st.parts + [Clean(st.val)], "", false);
      FinishUnquoted(st);
    } else {
      assert Feed(st, c) == st.(val := st.val + [c]);
      KeepUnquoted(st, c);
    }
  }

  /** Finishing a value keeps the state free of quotes. */
  lemma {:induction false} FinishUnquoted(st: Scan)
    requires Unquoted(st)
    ensures Unquoted(Scan(st.parts + [Clean(st.val)], "", false))
  {
    CleanUnquoted(st.val);
    AppendPlain(st.parts, Clean(st.val));
  }

  /** Keeping a character other than a quote keeps the state free of quotes. */
  lemma {:induction false} KeepUnquoted(st: Scan, c: char)
    requires Unquoted(st) && c != '\''
    ensures Unquoted(st.(val := st.val + [c]))
  {
    assert forall x :: x in st.val + [c] ==> x in st.val || x == c;
  }

  /** The loop never keeps a quote, and every value it finishes is stripped. */
  lemma {:induction false} FeedAllUnquoted(st: Scan, s: string)
    requires Unquoted(st)
    ensures Unquoted(FeedAll(st, s))
    decreases |s|
  {
    if |s| > 0 {
      FeedUnquoted(st, s[0]);
      FeedAllUnquoted(Feed(st, s[0]), s[1..]);
    }
  }

  /** The loop over `a + b` is the loop over `a`, then over `b`. */
  lemma {:induction false} FeedAppend(st: Scan, a: string, b: string)
    ensures FeedAll(st, a + b) == FeedAll(FeedAll(st, a), b)
    decreases |a|
  {
    if |a| == 0 {
      assert a + b == b;
    } else {
      assert (a + b)[0] == a[0] && (a + b)[1..] == a[1..] + b;
      FeedAppend(Feed(st, a[0]), a[1..], b);
    }
  }

  lemma FeedOne(st: Scan, c: char)
    ensures FeedAll(st, [c]) == Feed(st, c)
  {
    assert [c][1..] == "";
  }

  /** The end of `parse_values`: a last value is kept only when some
      character was read into it. */
  function Finish(st: Scan): (r: seq<string>)
    requires Unquoted(st)
    ensures forall k :: 0 <= k < |r| ==> PlainValue(r[k])
  {
    if st.val != "" then
      CleanUnquoted(st.val);
      AppendPlain(st.parts, Clean(st.val));
      st.parts + [Clean(st.val)]
    else st.parts
  }

  lemma AppendPlain(parts: seq<string>, v: string)
    requires forall k :: 0 <= k < |parts| ==> PlainValue(parts[k])
    requires PlainValue(v)
    ensures forall k :: 0 <= k < |parts + [v]| ==> PlainValue((parts + [v])[k])
  {
    forall k | 0 <= k < |parts + [v]| ensures PlainValue((parts + [v])[k]) {
      if k < |parts| {
        assert (parts + [v])[k] == parts[k];
      }
    }
  }

  /** `parse_values`: the surrounding parentheses go (all of them, from both
      ends), the rest is read character by character, and the last value is
      kept only when it is not empty. No value holds a quote, and every value
      is stripped. */
  function ParseValues(text: string): (r: seq<string>)
    ensures forall k :: 0 <= k < |r| ==> PlainValue(r[k])
  {
    var s := StripBy(text, IsParen);
    FeedAllUnquoted(Start, s);
    Finish(FeedAll(Start, s))
  }

  /** What the loop has done after reading quote-free text: the pieces
      before the last comma are finished and stripped, and the piece after
      it is being read. */
  predicate SplitState(st: Scan, s: string)
  {
    var ps := Split(s, ',');
    st == Scan(StripAll(ps[..|ps| - 1]), Last(ps), false)
  }

  lemma {:induction false} FeedPlainComma(p: string, st: Scan)
    requires SplitState(st, p) && '\'' !in st.val
    ensures SplitState(Feed(st, ','), p + [','])
  {
    var ps := Split(p, ',');
    SplitSep(p, ',');
    var ps2 := ps + [""];
    assert ps2[..|ps2| - 1] == ps && Last(ps2) == "";
    CleanUnquoted(st.val);
    assert Clean(st.val) == Strip(Last(ps));
    StripAllSnoc(ps);
    assert Feed(st, ',') == Scan(StripAll(ps), "", false);
  }

  lemma {:induction false} FeedPlainOther(p: string, st: Scan, c: char)
    requires SplitState(st, p) && c != ',' && c != '\''
    ensures SplitState(Feed(st, c), p + [c])
  {
    var ps := Split(p, ',');
    assert (p + [c])[..|p|] == p;
    assert Split(p + [c], ',') == ps[..|ps| - 1] + [Last(ps) + [c]];
  }

  /** Without quotes the loop is a plain comma split: the finished values
      are the stripped pieces before the last comma, and the value being
      read is the raw piece after it. */
  lemma {:induction false} FeedPlain(s: string)
    requires '\'' !in s
    ensures SplitState(FeedAll(Start, s), s)
    decreases |s|
  {
    if |s| == 0 {
      assert Split(s, ',') == [""];
    } else {
      var p := s[..|s| - 1];
      var c := s[|s| - 1];
      assert s == p + [c];
      assert '\'' !in p by {
        forall i | 0 <= i < |p| ensures p[i] != '\'' {
          assert p[i] == s[i];
        }
      }
      FeedPlain(p);
      FeedAppend(Start, p, [c]);
      var st := FeedAll(Start, p);
      FeedOne(st, c);
      if c == ',' {
        FeedAllUnquoted(Start, p);
        FeedPlainComma(p, st);
      } else {
        FeedPlainOther(p, st, c);
      }
    }
  }

  /** For input without quotes, `parse_values` is the comma split of the
      text inside the parentheses, each piece stripped, with the piece after
      the last comma dropped when it is empty. */
  lemma {:induction false} ParseValuesPlain(text: string)
    requires '\'' !in text
    ensures var ps := Split(StripBy(text, IsParen), ',');
            ParseValues(text)
            == StripAll(ps[..|ps| - 1]) + (if Last(ps) != "" then [Strip(Last(ps))] else [])
  {
    var s := StripBy(text, IsParen);
    assert forall x :: x in s ==> x in text;
    FeedPlain(s);
    FeedAllUnquoted(Start, s);
    FinishSplit(FeedAll(Start, s), s);
  }

  /** Finishing after quote-free text keeps the stripped piece after the
      last comma when it is not empty. */
  lemma {:induction false} FinishSplit(st: Scan, s: string)
    requires SplitState(st, s) && Unquoted(st) && '\'' !in s
    ensures var ps := Split(s, ',');
            Finish(st) == StripAll(ps[..|ps| - 1]) + (if Last(ps) != "" then [Strip(Last(ps))] else [])
  {
    var ps := Split(s, ',');
    if Last(ps) != "" {
      SplitAvoids(s, ',', '\'');
      CleanUnquoted(Last(ps));
    }
  }

  /** A value list as a user writes it: each value quoted, separated by
      `, `, in parentheses. */
  function QuotedList(values: seq<string>): string
  {
    if |values| == 0 then ""
    else
      var init := values[..|values| - 1];
      QuotedList(init) + (if |init| > 0 then ", " else "") + "'" + Last(values) + "'"
  }

  function ValuesText(values: seq<string>): string
  {
    "(" + QuotedList(values) + ")"
  }

  /** Inside quotes every character but a quote is kept, commas included. */
  lemma {:induction false} FeedQuoted(parts: seq<string>, val: string, s: string)
    requires '\'' !in s
    ensures FeedAll(Scan(parts, val, true), s) == Scan(parts, val + s, true)
    decreases |s|
  {
    if |s| > 0 {
      assert s[0] in s;
      assert s[1..] == s[1..] && forall c :: c in s[1..] ==> c in s;
      FeedQuoted(parts, val + [s[0]], s[1..]);
      assert val + [s[0]] + s[1..] == val + s;
    }
  }

  /** Reading `'v'` from a state with no quote open: `v` is added to the value. */
  lemma {:induction false} FeedQuotedValue(parts: seq<string>, val: string, v: string)
    requires '\'' !in v
    ensures FeedAll(Scan(parts, val, false), "'" + v + "'") == Scan(parts, val + v, false)
  {
    var st := Scan(parts, val, false);
    var q := "'";
    assert q + v + q == q + (v + q);
    FeedAppend(st, q, v + q);
    FeedOne(st, '\'');
    FeedAppend(Scan(parts, val, true), v, q);
    FeedQuoted(parts, val, v);
    FeedOne(Scan(parts, val + v, true), '\'');
  }

  lemma {:induction false} StripBlank(v: string)
    requires Trimmed(v, IsSpace)
    ensures Strip(" " + v) == v
  {
    assert IsSpace(" "[0]);
    StripSurrounded(" ", v, "", IsSpace);
    assert " " + v + "" == " " + v;
  }

  /** The value being read when a separator or the end comes: a plain
      value, after the blank of the separator before it, if any. */
  lemma {:induction false} CleanLead(lead: string, v: string)
    requires lead == "" || lead == " "
    requires PlainValue(v)
    ensures '\'' !in lead + v
    ensures Clean(lead + v) == v
  {
    if lead == "" {
      assert lead + v == v;
      CleanUnquoted(v);
    } else {
      assert (" " + v)[1..] == v;
      assert '\'' !in " " + v;
      CleanUnquoted(" " + v);
      StripBlank(v);
    }
  }

  /** A quoted list of at least one value opens and closes with a quote. */
  lemma {:induction false} QuotedListEnds(values: seq<string>)
    requires |values| > 0
    ensures var q := QuotedList(values); |q| >= 2 && q[0] == '\'' && q[|q| - 1] == '\''
    decreases |values|
  {
    var init := values[..|values| - 1];
    var tail := "'" + Last(values) + "'";
    var head := QuotedList(init) + (if |init| > 0 then ", " else "");
    assert QuotedList(values) == head + tail;
    if |init| > 0 {
      QuotedListEnds(init);
    }
  }

  /** Reading the quoted list leaves every value but the last finished, and
      the last one, preceded by the separator's blank, being read. */
  lemma {:induction false} FeedList(values: seq<string>)
    requires |values| > 0
    requires forall k :: 0 <= k < |values| ==> PlainValue(values[k])
    ensures FeedAll(Start, QuotedList(values))
            == Scan(values[..|values| - 1], (if |values| > 1 then " " else "") + Last(values), false)
    decreases |values|
  {
    var init := values[..|values| - 1];
    var v := Last(values);
    assert PlainValue(v);
    if |init| == 0 {
      assert QuotedList(values) == "'" + v + "'";
      FeedQuotedValue([], "", v);
      assert "" + v == v;
    } else {
      FeedList(init);
      FeedSeparator(init, v);
    }
  }

  /** A comma outside quotes finishes the value being read. */
  lemma {:induction false} FeedComma(parts: seq<string>, val: string, rest: string)
    ensures FeedAll(Scan(parts, val, false), [','] + rest)
            == FeedAll(Scan(parts + [Clean(val)], "", false), rest)
  {
    var st := Scan(parts, val, false);
    FeedAppend(st, [','], rest);
    FeedOne(st, ',');
  }

  /** A blank and a quoted value, with nothing read yet. */
  lemma {:induction false} FeedBlankValue(parts: seq<string>, v: string)
    requires '\'' !in v
    ensures FeedAll(Scan(parts, "", false), [' '] + ("'" + v + "'")) == Scan(parts, " " + v, false)
  {
    var st := Scan(parts, "", false);
    FeedAppend(st, [' '], "'" + v + "'");
    FeedOne(st, ' ');
    assert Feed(st, ' ') == Scan(parts, " ", false);
    FeedQuotedValue(parts, " ", v);
  }

  /** A separator and a quoted value after a value being read: the value
      is finished, and the quoted one is read after the separator's blank. */
  lemma {:induction false} FeedSeparatorValue(parts: seq<string>, val: string, v: string)
    requires '\'' !in v
    ensures FeedAll(Scan(parts, val, false), ", '" + v + "'")
            == Scan(parts + [Clean(val)], " " + v, false)
  {
    SeparatorText(v);
    FeedComma(parts, val, [' '] + ("'" + v + "'"));
    FeedBlankValue(parts + [Clean(val)], v);
  }

  lemma SeparatorText(v: string)
    ensures ", '" + v + "'" == [','] + ([' '] + ("'" + v + "'"))
  {
  }

  /** One more value after a list of at least one: the separator finishes
      the value being read, and the quoted value starts the next. */
  lemma {:induction false} FeedSeparator(init: seq<string>, v: string)
    requires |init| > 0 && PlainValue(v)
    requires forall k :: 0 <= k < |init| ==> PlainValue(init[k])
    requires FeedAll(Start, QuotedList(init))
             == Scan(init[..|init| - 1], (if |init| > 1 then " " else "") + Last(init), false)
    ensures FeedAll(Start, QuotedList(init + [v])) == Scan(init, " " + v, false)
  {
    var values := init + [v];
    assert values[..|values| - 1] == init && Last(values) == v;
    assert QuotedList(values) == QuotedList(init) + (", '" + v + "'");
    FeedAppend(Start, QuotedList(init), ", '" + v + "'");
    var lead := if |init| > 1 then " " else "";
    assert PlainValue(Last(init));
    CleanLead(lead, Last(init));
    FeedSeparatorValue(init[..|init| - 1], lead + Last(init), v);
    InitLast(init);
  }

  /** The parentheses around a quoted list are all the parentheses stripped. */
  lemma {:induction false} ValuesTextBody(values: seq<string>)
    ensures StripBy(ValuesText(values), IsParen) == QuotedList(values)
  {
    if |values| > 0 {
      QuotedListEnds(values);
    }
    StripSurrounded("(", QuotedList(values), ")", IsParen);
  }

  /** Quoted values written as a list come back as written, commas inside
      quotes included; the one exception is a list holding a single empty
      value, which `parse_values` drops (see `LoneEmptyValueDropped`). */
  lemma {:induction false} ParseValuesRoundTrip(values: seq<string>)
    requires forall k :: 0 <= k < |values| ==> PlainValue(values[k])
    requires values != [""]
    ensures ParseValues(ValuesText(values)) == values
  {
    ValuesTextBody(values);
    if |values| > 0 {
      FeedList(values);
      var lead := if |values| > 1 then " " else "";
      var v := Last(values);
      assert PlainValue(v);
      assert lead + v != "" by {
        if |values| == 1 {
          assert values == [v];
        }
      }
      CleanLead(lead, v);
      InitLast(values);
    }
  }

  /** `('')` yields no value at all: the quotes are not kept and the empty
      value after them is not added, so an insert into a one-column table
      with an empty value is refused for its value count. */
  lemma LoneEmptyValueDropped()
    ensures ParseValues("('')") == []
  {
    var q, open, close := "'", "(", ")";
    assert "('')" == open + (q + q) + close;
    StripSurrounded(open, q + q, close, IsParen);
    assert StripBy("('')", IsParen) == q + q;
    FeedAppend(Start, q, q);
    FeedOne(Start, '\'');
    FeedOne(Scan([], "", true), '\'');
  }

  // --------------------------------------------------------- parse_condition

  /** `val.strip().strip("'").strip()`. */
  function ConditionValue(s: string): (v: string)
    ensures Trimmed(v, IsSpace)
  {
    Strip(StripBy(Strip(s), IsQuote))
  }

  /** `cond.split("=", 1)` for text holding `=`: the text before the first
      `=` and the text after it. */
  function Cut(cond: string): (r: (string, string))
    requires '=' in cond
    ensures cond == r.0 + "=" + r.1 && '=' !in r.0
  {
    var i := IndexOf(cond, '=');
    assert '=' !in cond[..i] by {
      forall j | 0 <= j < i ensures cond[..i][j] != '=' {
        assert cond[..i][j] == cond[j];
      }
    }
    assert cond == cond[..i] + "=" + cond[i + 1..];
    (cond[..i], cond[i + 1..])
  }

  /** `parse_condition`: the text is cut at its first `=`; the column is the
      stripped text before it, the value the text after it with blanks,
      then quotes, then blanks stripped from its ends. Without `=` the
      unpacking fails. */
  function ParseCondition(cond: string): (r: Result<(string, string)>)
    ensures r.Failure? <==> '=' !in cond
    ensures r.Failure? ==> r.error == MissingEquals
    ensures r.Success? ==> '=' !in r.value.0 && Trimmed(r.value.0, IsSpace) && Trimmed(r.value.1, IsSpace)
    ensures r.Success? ==>
              exists before, after :: cond == before + "=" + after && '=' !in before
                && r.value == (Strip(before), ConditionValue(after))
  {
    if '=' !in cond then Failure(MissingEquals)
    else
      var (before, after) := Cut(cond);
      Success((Strip(before), ConditionValue(after)))
  }

  /** The first `=` of `col = 'v'` is the one after the column. */
  lemma {:induction false} CutCondition(col: string, v: string)
    requires '=' !in col
    ensures Cut(col + " = '" + v + "'") == (col + " ", " '" + v + "'")
  {
    var cond := col + " = '" + v + "'";
    var n := |col|;
    assert cond[n + 1] == '=';
    var i := IndexOf(cond, '=');
    assert i == n + 1 by {
      forall j | 0 <= j < n ensures cond[j] != '=' {
        assert cond[j] == col[j];
        assert col[j] in col;
      }
      assert cond[n] == ' ';
    }
    assert cond[..i] == col + " ";
    assert cond[i + 1..] == " '" + v + "'";
  }

  /** A quoted value after a blank reads back as the value. */
  lemma {:induction false} QuotedConditionValue(v: string)
    requires Trimmed(v, IsSpace) && Trimmed(v, IsQuote)
    ensures ConditionValue(" '" + v + "'") == v
  {
    var q := "'" + v + "'";
    assert " '" + v + "'" == " " + q;
    LeadBlankQuoted(v);
    StripSurrounded("'", v, "'", IsQuote);
  }

  lemma {:induction false} LeadBlankQuoted(v: string)
    ensures Strip(" " + ("'" + v + "'")) == "'" + v + "'"
  {
    var q := "'" + v + "'";
    assert !IsSpace(q[0]) && !IsSpace(q[|q| - 1]);
    StripBlank(q);
  }

  /** A condition written `col = 'v'` reads back as `(col, v)`, whatever
      `=` signs the value holds, provided the column has none and both are
      stripped and the value does not start or end with a quote. */
  lemma {:induction false} ConditionRoundTrip(col: string, v: string)
    requires '=' !in col && Trimmed(col, IsSpace)
    requires Trimmed(v, IsSpace) && Trimmed(v, IsQuote)
    ensures ParseCondition(ConditionText(col, v)) == Success((col, v))
  {
    var cond := ConditionText(col, v);
    CutCondition(col, v);
    StripTrailingBlank(col);
    QuotedConditionValue(v);
    assert Cut(cond) == (col + " ", " '" + v + "'");
  }

  // ------------------------------------------------------ CREATE TABLE specs

  const PrimaryKeyWord: string := "PRIMARY KEY"
  const UniqueWord: string := "UNIQUE"

  /** What one comma-separated piece of a CREATE TABLE specification declares. */
  datatype SpecKind = KeySpec(key: string) | UniqueSpec(key: string) | ColumnSpec(name: string)

  /** `s.strip().replace("(", "").replace(")", "")`. */
  function KeyName(s: string): (k: string)
    ensures forall c :: c in k ==> !IsParen(c)
  {
    RemoveAll(Strip(s), IsParen)
  }

  /** The piece is stripped; a `PRIMARY KEY` prefix in any letter case
      makes it the primary key, else a `UNIQUE` prefix a unique key, with
      the parentheses of the rest removed; anything else is a column. */
  function Kind(spec: string): (k: SpecKind)
    ensures var s := Strip(spec);
            && (k.KeySpec? <==> StartsWith(Upper(s), PrimaryKeyWord))
            && (k.UniqueSpec? <==> !StartsWith(Upper(s), PrimaryKeyWord) && StartsWith(Upper(s), UniqueWord))
            && (k.ColumnSpec? ==> k.name == s)
    ensures !k.ColumnSpec? ==> forall c :: c in k.key ==> !IsParen(c) && c in spec
  {
    var s := Strip(spec);
    if StartsWith(Upper(s), PrimaryKeyWord) then KeySpec(KeyName(s[|PrimaryKeyWord|..]))
    else if StartsWith(Upper(s), UniqueWord) then UniqueSpec(KeyName(s[|UniqueWord|..]))
    else ColumnSpec(s)
  }

  /** The columns in declaration order, the primary key (the last one
      declared) and the unique-key set. */
  datatype TableSpec = TableSpec(columns: seq<string>, primaryKey: Option<string>, uniqueKeys: seq<string>)

  function Declare(t: TableSpec, k: SpecKind): (r: TableSpec)
    requires Distinct(t.uniqueKeys)
    ensures Distinct(r.uniqueKeys)
  {
    match k
    case KeySpec(key) => t.(primaryKey := Some(key))
    case UniqueSpec(key) => t.(uniqueKeys := Add(t.uniqueKeys, key))
    case ColumnSpec(name) => t.(columns := t.columns + [name])
  }

  /** The loop of `_handle_create_table` over the classified pieces. */
  function Classify(kinds: seq<SpecKind>): (r: TableSpec)
    ensures Distinct(r.uniqueKeys)
  {
    if |kinds| == 0 then TableSpec([], None, [])
    else Declare(Classify(kinds[..|kinds| - 1]), Last(kinds))
  }

  function Kinds(specs: seq<string>): (ks: seq<SpecKind>)
    ensures |ks| == |specs| && forall i :: 0 <= i < |specs| ==> ks[i] == Kind(specs[i])
  {
    seq(|specs|, i requires 0 <= i < |specs| => Kind(specs[i]))
  }

  /** The specification between the parentheses of CREATE TABLE, split at
      every comma; a missing or empty primary key is refused. */
  function ParseSpecs(text: string): (r: Result<TableSpec>)
    ensures var t := Classify(Kinds(Split(text, ',')));
            && (r.Failure? <==> t.primaryKey.None? || t.primaryKey == Some(""))
            && (r.Failure? ==> r.error == MissingPrimaryKey)
            && (r.Success? ==> r.value == t)
  {
    var t := Classify(Kinds(Split(text, ',')));
    if t.primaryKey.None? || t.primaryKey == Some("") then Failure(MissingPrimaryKey) else Success(t)
  }

  /** The position of the last `PRIMARY KEY` piece, if any. */
  function LastKey(kinds: seq<SpecKind>): (r: Option<nat>)
    ensures r.None? <==> forall i :: 0 <= i < |kinds| ==> !kinds[i].KeySpec?
    ensures r.Some? ==> r.value < |kinds| && kinds[r.value].KeySpec?
                        && forall j :: r.value < j < |kinds| ==> !kinds[j].KeySpec?
  {
    if |kinds| == 0 then None
    else if Last(kinds).KeySpec? then Some(|kinds| - 1)
    else
      var init := kinds[..|kinds| - 1];
      assert forall i :: 0 <= i < |init| ==> init[i] == kinds[i];
      LastKey(init)
  }

  /** The primary key is the one the last `PRIMARY KEY` piece names, and
      there is none exactly when no piece declares one. */
  lemma {:induction false} ClassifyPrimary(kinds: seq<SpecKind>)
    ensures Classify(kinds).primaryKey.None? <==> LastKey(kinds).None?
    ensures LastKey(kinds).Some? ==> Classify(kinds).primaryKey == Some(kinds[LastKey(kinds).value].key)
    decreases |kinds|
  {
    if |kinds| > 0 {
      var init := kinds[..|kinds| - 1];
      ClassifyPrimary(init);
      if !Last(kinds).KeySpec? && LastKey(init).Some? {
        assert init[LastKey(init).value] == kinds[LastKey(init).value];
      }
    }
  }

  /** The names of the column pieces, in the order they are written,
      repeats kept. */
  function ColumnNames(kinds: seq<SpecKind>): seq<string>
  {
    if |kinds| == 0 then []
    else (if kinds[0].ColumnSpec? then [kinds[0].name] else []) + ColumnNames(kinds[1..])
  }

  lemma {:induction false} ColumnNamesSnoc(kinds: seq<SpecKind>, k: SpecKind)
    ensures ColumnNames(kinds + [k]) == ColumnNames(kinds) + (if k.ColumnSpec? then [k.name] else [])
    decreases |kinds|
  {
    if |kinds| == 0 {
      assert kinds + [k] == [k];
    } else {
      assert (kinds + [k])[1..] == kinds[1..] + [k];
      ColumnNamesSnoc(kinds[1..], k);
    }
  }

  /** The unique keys are the keys of the `UNIQUE` pieces; the columns are
      the names of the remaining pieces, in the order written, repeats kept. */
  lemma {:induction false} ClassifyMembers(kinds: seq<SpecKind>)
    ensures forall k :: k in Classify(kinds).uniqueKeys <==> UniqueSpec(k) in kinds
    ensures forall c :: c in Classify(kinds).columns <==> ColumnSpec(c) in kinds
    ensures Classify(kinds).columns == ColumnNames(kinds)
    decreases |kinds|
  {
    if |kinds| > 0 {
      var init := kinds[..|kinds| - 1];
      ClassifyMembers(init);
      InitLast(kinds);
      ColumnNamesSnoc(init, Last(kinds));
    }
  }

  // A specification as a user writes it, and its reading.

  function KeyPiece(k: string): string
  {
    "PRIMARY KEY (" + k + ")"
  }

  function UniquePiece(k: string): string
  {
    "UNIQUE (" + k + ")"
  }

  function UniquePieces(keys: seq<string>): (r: seq<string>)
    ensures |r| == |keys| && forall i :: 0 <= i < |keys| ==> r[i] == UniquePiece(keys[i])
  {
    seq(|keys|, i requires 0 <= i < |keys| => UniquePiece(keys[i]))
  }

  /** The columns, then the primary key, then the unique keys, comma-separated. */
  function SpecText(columns: seq<string>, key: string, uniques: seq<string>): string
  {
    Join(columns + [KeyPiece(key)] + UniquePieces(uniques), ',')
  }

  /** A column name read back as a column: no comma, stripped, and not
      starting with either keyword in any letter case. */
  predicate PlainColumn(c: string)
  {
    ',' !in c && Trimmed(c, IsSpace)
    && !StartsWith(Upper(c), PrimaryKeyWord) && !StartsWith(Upper(c), UniqueWord)
  }

  /** A key name read back as written: no comma, no parenthesis, stripped. */
  predicate PlainKey(k: string)
  {
    ',' !in k && Trimmed(k, IsSpace) && forall i :: 0 <= i < |k| ==> !IsParen(k[i])
  }

  lemma {:induction false} KindColumn(c: string)
    requires PlainColumn(c)
    ensures Kind(c) == ColumnSpec(c)
  {
  }

  /** Upper-casing keeps text that has no lower-case letter. */
  lemma UpperKeeps(w: string)
    requires forall i :: 0 <= i < |w| ==> !('a' <= w[i] <= 'z')
    ensures Upper(w) == w
  {
  }

  lemma {:induction false} StripParenthesised(k: string)
    ensures Strip(" (" + k + ")") == "(" + k + ")"
  {
    var p := "(" + k + ")";
    assert !IsSpace(p[0]) && !IsSpace(p[|p| - 1]) && IsSpace(' ');
    StripSurrounded(" ", p, "", IsSpace);
    assert " " + p + "" == " (" + k + ")";
  }

  lemma {:induction false} RemoveParentheses(k: string)
    requires forall i :: 0 <= i < |k| ==> !IsParen(k[i])
    ensures RemoveAll("(" + k + ")", IsParen) == k
  {
    var open, close := "(", ")";
    assert open + k + close == open + (k + close);
    RemoveAllAppend(open, k + close, IsParen);
    RemoveAllAppend(k, close, IsParen);
    forall c | c in k ensures !IsParen(c) {
      var i :| 0 <= i < |k| && k[i] == c;
    }
    assert RemoveAll(open, IsParen) == "";
    assert RemoveAll(close, IsParen) == "";
  }

  /** `(k)` after a blank: the key name is `k`. */
  lemma {:induction false} KeyNameParens(k: string)
    requires PlainKey(k)
    ensures KeyName(" (" + k + ")") == k
  {
    StripParenthesised(k);
    RemoveParentheses(k);
  }

  lemma {:induction false} KindKey(k: string)
    requires PlainKey(k)
    ensures Kind(KeyPiece(k)) == KeySpec(k)
  {
    var s := KeyPiece(k);
    assert !IsSpace(s[0]) && !IsSpace(s[|s| - 1]);
    assert Strip(s) == s;
    UpperSlice(s, 0, |PrimaryKeyWord|);
    assert s[..|PrimaryKeyWord|] == PrimaryKeyWord;
    UpperKeeps(PrimaryKeyWord);
    assert s[|PrimaryKeyWord|..] == " (" + k + ")";
    KeyNameParens(k);
  }

  lemma {:induction false} UniqueNotKey(k: string)
    ensures !StartsWith(Upper(UniquePiece(k)), PrimaryKeyWord)
  {
    var u := Upper(UniquePiece(k));
    if |PrimaryKeyWord| <= |u| {
      assert u[..|PrimaryKeyWord|][0] == u[0] == 'U';
    }
  }

  lemma {:induction false} UniqueWordFirst(k: string)
    ensures StartsWith(Upper(UniquePiece(k)), UniqueWord)
    ensures Strip(UniquePiece(k)) == UniquePiece(k)
    ensures UniquePiece(k)[|UniqueWord|..] == " (" + k + ")"
  {
    var s := UniquePiece(k);
    assert !IsSpace(s[0]) && !IsSpace(s[|s| - 1]);
    UpperSlice(s, 0, |UniqueWord|);
    assert s[..|UniqueWord|] == UniqueWord;
    UpperKeeps(UniqueWord);
  }

  lemma {:induction false} KindUnique(k: string)
    requires PlainKey(k)
    ensures Kind(UniquePiece(k)) == UniqueSpec(k)
  {
    UniqueNotKey(k);
    UniqueWordFirst(k);
    KeyNameParens(k);
  }

  /** A column whose name starts with `UNIQUE`, such as `UNIQUE_ID`, is
      taken for a unique-key declaration of the rest of its name. */
  lemma {:induction false} UniquePrefixedColumn(rest: string)
    requires |rest| > 0 && PlainKey(rest)
    ensures Kind(UniqueWord + rest) == UniqueSpec(rest)
  {
    UniqueLead(rest);
    assert forall c :: c in rest ==> !IsParen(c);
    assert KeyName(rest) == rest;
  }

  lemma {:induction false} UniqueLead(rest: string)
    requires |rest| > 0 && Trimmed(rest, IsSpace)
    ensures Strip(UniqueWord + rest) == UniqueWord + rest
    ensures !StartsWith(Upper(UniqueWord + rest), PrimaryKeyWord)
    ensures StartsWith(Upper(UniqueWord + rest), UniqueWord)
    ensures (UniqueWord + rest)[|UniqueWord|..] == rest
  {
    var s := UniqueWord + rest;
    assert !IsSpace(s[0]) && s[|s| - 1] == rest[|rest| - 1];
    var u := Upper(s);
    if |PrimaryKeyWord| <= |u| {
      assert u[..|PrimaryKeyWord|][0] == u[0] == 'U';
    }
    UpperSlice(s, 0, |UniqueWord|);
    assert s[..|UniqueWord|] == UniqueWord;
    UpperKeeps(UniqueWord);
  }

  function ColumnSpecs(columns: seq<string>): (r: seq<SpecKind>)
    ensures |r| == |columns| && forall i :: 0 <= i < |columns| ==> r[i] == ColumnSpec(columns[i])
  {
    seq(|columns|, i requires 0 <= i < |columns| => ColumnSpec(columns[i]))
  }

  function UniqueSpecs(keys: seq<string>): (r: seq<SpecKind>)
    ensures |r| == |keys| && forall i :: 0 <= i < |keys| ==> r[i] == UniqueSpec(keys[i])
  {
    seq(|keys|, i requires 0 <= i < |keys| => UniqueSpec(keys[i]))
  }

  /** Column pieces only: the columns in order, no keys. */
  lemma {:induction false} ClassifyColumns(columns: seq<string>)
    ensures Classify(ColumnSpecs(columns)) == TableSpec(columns, None, [])
    decreases |columns|
  {
    if |columns| > 0 {
      var init := columns[..|columns| - 1];
      ClassifyColumns(init);
      assert ColumnSpecs(columns)[..|columns| - 1] == ColumnSpecs(init);
      InitLast(columns);
    }
  }

  /** `UNIQUE` pieces after a prefix that declared none: the unique keys
      are the distinct keys in order of first appearance; nothing else
      changes. */
  lemma {:induction false} ClassifyUniques(pre: seq<SpecKind>, keys: seq<string>)
    requires Classify(pre).uniqueKeys == []
    ensures Classify(pre + UniqueSpecs(keys)) == Classify(pre).(uniqueKeys := Dedup(keys))
    decreases |keys|
  {
    if |keys| == 0 {
      assert pre + UniqueSpecs(keys) == pre;
    } else {
      var init := keys[..|keys| - 1];
      ClassifyUniques(pre, init);
      UniquesSnoc(pre, keys);
    }
  }

  lemma {:induction false} UniquesSnoc(pre: seq<SpecKind>, keys: seq<string>)
    requires |keys| > 0
    ensures var all := pre + UniqueSpecs(keys);
            all[..|all| - 1] == pre + UniqueSpecs(keys[..|keys| - 1]) && Last(all) == UniqueSpec(Last(keys))
  {
    var all := pre + UniqueSpecs(keys);
    assert all[..|all| - 1] == pre + UniqueSpecs(keys[..|keys| - 1]);
  }

  lemma {:induction false} KindsAppend(a: seq<string>, b: seq<string>)
    ensures Kinds(a + b) == Kinds(a) + Kinds(b)
  {
    var l := Kinds(a + b);
    var r := Kinds(a) + Kinds(b);
    forall i | 0 <= i < |a + b| ensures l[i] == r[i] {
      if i < |a| {
        assert (a + b)[i] == a[i] && r[i] == Kinds(a)[i];
      } else {
        assert (a + b)[i] == b[i - |a|] && r[i] == Kinds(b)[i - |a|];
      }
    }
  }

  lemma {:induction false} KindsColumns(columns: seq<string>)
    requires forall i :: 0 <= i < |columns| ==> PlainColumn(columns[i])
    ensures Kinds(columns) == ColumnSpecs(columns)
  {
    forall i | 0 <= i < |columns| ensures Kinds(columns)[i] == ColumnSpecs(columns)[i] {
      KindColumn(columns[i]);
    }
  }

  lemma {:induction false} KindsUniques(keys: seq<string>)
    requires forall i :: 0 <= i < |keys| ==> PlainKey(keys[i])
    ensures Kinds(UniquePieces(keys)) == UniqueSpecs(keys)
  {
    forall i | 0 <= i < |keys| ensures Kinds(UniquePieces(keys))[i] == UniqueSpecs(keys)[i] {
      KindUnique(keys[i]);
    }
  }

  lemma {:induction false} SpecKinds(columns: seq<string>, key: string, uniques: seq<string>)
    requires forall i :: 0 <= i < |columns| ==> PlainColumn(columns[i])
    requires PlainKey(key) && forall i :: 0 <= i < |uniques| ==> PlainKey(uniques[i])
    ensures Kinds(columns + [KeyPiece(key)] + UniquePieces(uniques))
            == ColumnSpecs(columns) + [KeySpec(key)] + UniqueSpecs(uniques)
  {
    KindsAppend(columns + [KeyPiece(key)], UniquePieces(uniques));
    KindsAppend(columns, [KeyPiece(key)]);
    KindsColumns(columns);
    KindKey(key);
    assert Kinds([KeyPiece(key)]) == [KeySpec(key)];
    KindsUniques(uniques);
  }

  lemma {:induction false} SpecPieces(columns: seq<string>, key: string, uniques: seq<string>)
    requires forall i :: 0 <= i < |columns| ==> PlainColumn(columns[i])
    requires PlainKey(key) && forall i :: 0 <= i < |uniques| ==> PlainKey(uniques[i])
    ensures Split(SpecText(columns, key, uniques), ',') == columns + [KeyPiece(key)] + UniquePieces(uniques)
  {
    var pieces := columns + [KeyPiece(key)] + UniquePieces(uniques);
    var n := |columns|;
    forall i | 0 <= i < |pieces| ensures ',' !in pieces[i] {
      if i < n {
        assert pieces[i] == columns[i] && PlainColumn(columns[i]);
      } else if i == n {
        assert pieces[i] == KeyPiece(key);
      } else {
        assert pieces[i] == UniquePiece(uniques[i - n - 1]) && PlainKey(uniques[i - n - 1]);
      }
    }
    SplitJoin(pieces, ',');
  }

  /** A CREATE TABLE specification written as columns, then `PRIMARY KEY
      (k)`, then `UNIQUE (u)` pieces reads back as those columns in order,
      that primary key and the distinct unique keys. */
  lemma {:induction false} SpecRoundTrip(columns: seq<string>, key: string, uniques: seq<string>)
    requires forall i :: 0 <= i < |columns| ==> PlainColumn(columns[i])
    requires PlainKey(key) && key != ""
    requires forall i :: 0 <= i < |uniques| ==> PlainKey(uniques[i])
    ensures ParseSpecs(SpecText(columns, key, uniques)) == Success(TableSpec(columns, Some(key), Dedup(uniques)))
  {
    SpecPieces(columns, key, uniques);
    SpecKinds(columns, key, uniques);
    var cs := ColumnSpecs(columns);
    ClassifyColumns(columns);
    var pre := cs + [KeySpec(key)];
    assert pre[..|pre| - 1] == cs;
    assert Classify(pre) == TableSpec(columns, Some(key), []);
    ClassifyUniques(pre, uniques);
    ParseSpecsOf(SpecText(columns, key, uniques), TableSpec(columns, Some(key), Dedup(uniques)));
  }

  lemma {:induction false} ParseSpecsOf(text: string, t: TableSpec)
    requires Classify(Kinds(Split(text, ','))) == t && t.primaryKey.Some? && t.primaryKey.value != ""
    ensures ParseSpecs(text) == Success(t)
  {
  }

  // ------------------------------------------------------------------ SELECT

  /** The keyword occurs in `u` at `i` and nowhere before. */
  predicate FirstMatch(u: string, keyword: string, i: nat)
  {
    MatchesAt(u, keyword, i) && forall j :: 0 <= j < i ==> !MatchesAt(u, keyword, j)
  }

  /** The stripped text after the keyword found at `i`, and the stripped
      text before it. */
  function Around(text: string, keyword: string, i: nat): (Option<string>, string)
    requires i + |keyword| <= |text|
  {
    (Some(Strip(text[i + |keyword|..])), Strip(text[..i]))
  }

  /** `extract_clause`: the first place the keyword occurs in the
      upper-cased text splits it. Without the keyword the text comes back
      whole. */
  function ExtractClause(text: string, keyword: string): (r: (Option<string>, string))
    ensures r.0.None? <==> forall j :: 0 <= j ==> !MatchesAt(Upper(text), keyword, j)
    ensures r.0.None? ==> r.1 == text
    ensures r.0.Some? ==> exists i: nat :: i + |keyword| <= |text| && FirstMatch(Upper(text), keyword, i)
                                       && r == Around(text, keyword, i)
  {
    match Find(Upper(text), keyword)
    case None => (None, text)
    case Some(i) => Around(text, keyword, i)
  }

  /** The keyword does not occur in the upper-cased text before position `i`. */
  predicate NotBefore(text: string, keyword: string, i: nat)
  {
    forall j :: 0 <= j < i ==> !MatchesAt(Upper(text), keyword, j)
  }

  /** The keyword occurs nowhere in the upper-cased text. */
  ghost predicate Lacks(text: string, keyword: string)
  {
    forall j :: 0 <= j ==> !MatchesAt(Upper(text), keyword, j)
  }

  /** A slice of a text that lacks the keyword lacks it too. */
  lemma {:induction false} SliceLacks(text: string, keyword: string, a: nat, b: nat)
    requires Lacks(text, keyword) && a <= b <= |text|
    ensures Lacks(text[a..b], keyword)
  {
    UpperSlice(text, a, b);
    var u := Upper(text);
    forall j | 0 <= j ensures !MatchesAt(Upper(text[a..b]), keyword, j) {
      if j + |keyword| <= b - a {
        assert Upper(text[a..b])[j..j + |keyword|] == u[a + j..a + j + |keyword|];
        assert !MatchesAt(u, keyword, a + j);
      }
    }
  }

  /** The text before the first occurrence of a keyword lacks it. */
  lemma {:induction false} PrefixLacks(text: string, keyword: string, i: nat)
    requires |keyword| > 0 && i <= |text| && NotBefore(text, keyword, i)
    ensures Lacks(text[..i], keyword)
  {
    UpperSlice(text, 0, i);
    assert text[..i] == text[0..i];
    var u := Upper(text);
    forall j | 0 <= j ensures !MatchesAt(Upper(text[..i]), keyword, j) {
      if j + |keyword| <= i {
        assert Upper(text[..i])[j..j + |keyword|] == u[j..j + |keyword|];
        assert !MatchesAt(u, keyword, j);
      }
    }
  }

  /** Stripping a text that lacks a keyword leaves it lacking it. */
  lemma {:induction false} StripLacks(text: string, keyword: string)
    requires Lacks(text, keyword)
    ensures Lacks(Strip(text), keyword)
  {
    var l := TrimLeft(text, IsSpace);
    SliceLacks(text, keyword, |text| - |l|, |text|);
    assert text[|text| - |l|..|text|] == l;
    var r := TrimRight(l, IsSpace);
    SliceLacks(l, keyword, 0, |r|);
    assert l[0..|r|] == r;
  }

  /** What `extract_clause` leaves lacks the keyword it looked for. */
  lemma {:induction false} ExtractLacks(text: string, keyword: string)
    requires |keyword| > 0
    ensures Lacks(ExtractClause(text, keyword).1, keyword)
  {
    var r := ExtractClause(text, keyword);
    if r.0.Some? {
      var i: nat :| i + |keyword| <= |text| && FirstMatch(Upper(text), keyword, i) && r == Around(text, keyword, i);
      PrefixLacks(text, keyword, i);
      StripLacks(text[..i], keyword);
    }
  }

  /** What `extract_clause` leaves lacks every keyword the text lacked. */
  lemma {:induction false} ExtractKeeps(text: string, keyword: string, other: string)
    requires Lacks(text, other)
    ensures Lacks(ExtractClause(text, keyword).1, other)
  {
    var r := ExtractClause(text, keyword);
    if r.0.Some? {
      var i: nat :| i + |keyword| <= |text| && FirstMatch(Upper(text), keyword, i) && r == Around(text, keyword, i);
      SliceLacks(text, other, 0, i);
      assert text[0..i] == text[..i];
      StripLacks(text[..i], other);
    }
  }

  /** A clause `extract_clause` found non-empty starts with a word. */
  lemma {:induction false} PresentWord(text: string, keyword: string)
    requires Present(ExtractClause(text, keyword).0)
    ensures |FirstWord(ExtractClause(text, keyword).0.value)| > 0
  {
    var r := ExtractClause(text, keyword);
    var i: nat :| i + |keyword| <= |text| && FirstMatch(Upper(text), keyword, i) && r == Around(text, keyword, i);
    assert !IsSpace(r.0.value[0]);
  }

  /** `a <keyword> b`: a keyword between single blanks. */
  function Clause(a: string, keyword: string, b: string): string
  {
    a + " " + keyword + " " + b
  }

  /** An upper-case keyword between blanks, with no earlier occurrence,
      splits the text into what is around it. */
  lemma {:induction false} ExtractRoundTrip(a: string, keyword: string, b: string)
    requires Upper(keyword) == keyword
    requires Trimmed(a, IsSpace) && Trimmed(b, IsSpace)
    requires NotBefore(Clause(a, keyword, b), keyword, |a| + 1)
    ensures ExtractClause(Clause(a, keyword, b), keyword) == (Some(b), a)
  {
    var t := Clause(a, keyword, b);
    var i := |a| + 1;
    KeywordAt(a, keyword, b);
    assert Find(Upper(t), keyword) == Some(i);
    AroundBlanks(a, keyword, b);
  }

  lemma {:induction false} KeywordAt(a: string, keyword: string, b: string)
    requires Upper(keyword) == keyword
    ensures MatchesAt(Upper(Clause(a, keyword, b)), keyword, |a| + 1)
  {
    var t := Clause(a, keyword, b);
    var i := |a| + 1;
    assert t[i..i + |keyword|] == keyword;
    UpperSlice(t, i, i + |keyword|);
  }

  lemma {:induction false} AroundBlanks(a: string, keyword: string, b: string)
    requires Trimmed(a, IsSpace) && Trimmed(b, IsSpace)
    ensures Around(Clause(a, keyword, b), keyword, |a| + 1) == (Some(b), a)
  {
    var t := Clause(a, keyword, b);
    var i := |a| + 1;
    assert t[i + |keyword|..] == " " + b;
    StripBlank(b);
    assert t[..i] == a + " ";
    StripTrailingBlank(a);
  }

  lemma {:induction false} StripTrailingBlank(a: string)
    requires Trimmed(a, IsSpace)
    ensures Strip(a + " ") == a
  {
    assert a + " " == "" + a + " ";
    assert IsSpace(' ');
    StripSurrounded("", a, " ", IsSpace);
  }

  /** What a SELECT asks for; the LIMIT is the word `int()` would read. */
  datatype Query = Query(table: string, columns: Option<seq<string>>, condition: Option<(string, string)>,
                         orderBy: Option<string>, limit: Option<string>)

  /** Python's `if part:` on what `extract_clause` returned. */
  predicate Present(part: Option<string>)
  {
    part.Some? && part.value != ""
  }

  /** The select list: `*` means every column. */
  function SelectList(clause: string): Option<seq<string>>
  {
    if clause == "*" then None else Some(StripAll(Split(clause, ',')))
  }

  /** Python's `s[a:b]` for bounds that are not negative. */
  function Slice(s: string, a: nat, b: nat): (r: string)
    ensures a <= b <= |s| ==> r == s[a..b]
  {
    var hi := if b <= |s| then b else |s|;
    var lo := if a <= hi then a else hi;
    s[lo..hi]
  }

  /** The parts after FROM: LIMIT is cut off first, then ORDER BY, then
      WHERE, each at the first place it occurs in what is left, and the
      rest is the table name. */
  function SelectTail(rest: string): (r: Result<(string, Option<(string, string)>, Option<string>, Option<string>)>)
    ensures r.Failure? ==> r.error == MissingEquals
    ensures r.Success? ==>
              var (table, condition, orderBy, limit) := r.value;
              && Trimmed(table, IsSpace)
              && Lacks(table, "LIMIT") && Lacks(table, "ORDER BY") && Lacks(table, "WHERE")
              && (condition.Some? ==> '=' !in condition.value.0 && Trimmed(condition.value.0, IsSpace))
              && (orderBy.Some? ==> |orderBy.value| > 0 && forall c :: c in orderBy.value ==> !IsSpace(c))
              && (limit.Some? ==> |limit.value| > 0 && forall c :: c in limit.value ==> !IsSpace(c))
  {
    TailFacts(rest);
    var (limitPart, rest1) := ExtractClause(rest, "LIMIT");
    var limit := if Present(limitPart) then Some(FirstWord(limitPart.value)) else None;
    var (orderPart, rest2) := ExtractClause(rest1, "ORDER BY");
    var orderBy := if Present(orderPart) then Some(FirstWord(orderPart.value)) else None;
    var (wherePart, rest3) := ExtractClause(rest2, "WHERE");
    WithCondition(wherePart, Strip(rest3), orderBy, limit)
  }

  /** The WHERE step of the tail: a non-empty WHERE clause is parsed as a
      condition, whose failure fails the whole tail. */
  function WithCondition(wherePart: Option<string>, table: string, orderBy: Option<string>, limit: Option<string>)
    : (r: Result<(string, Option<(string, string)>, Option<string>, Option<string>)>)
    ensures r.Failure? ==> r.error == MissingEquals
    ensures r.Success? ==> r.value.0 == table && r.value.2 == orderBy && r.value.3 == limit
    ensures r.Success? && r.value.1.Some? ==> '=' !in r.value.1.value.0 && Trimmed(r.value.1.value.0, IsSpace)
  {
    if Present(wherePart) then
      match ParseCondition(Strip(wherePart.value))
      case Failure(e) => Failure(e)
      case Success(c) => Success((table, Some(c), orderBy, limit))
    else Success((table, None, orderBy, limit))
  }

  /** The text left after LIMIT, ORDER BY and WHERE are cut off lacks all
      three, and each clause found non-empty starts with a word. */
  lemma {:induction false} TailFacts(rest: string)
    ensures var (limitPart, rest1) := ExtractClause(rest, "LIMIT");
            var (orderPart, rest2) := ExtractClause(rest1, "ORDER BY");
            var rest3 := ExtractClause(rest2, "WHERE").1;
            && Lacks(Strip(rest3), "LIMIT") && Lacks(Strip(rest3), "ORDER BY") && Lacks(Strip(rest3), "WHERE")
            && (Present(limitPart) ==> |FirstWord(limitPart.value)| > 0)
            && (Present(orderPart) ==> |FirstWord(orderPart.value)| > 0)
  {
    var (limitPart, rest1) := ExtractClause(rest, "LIMIT");
    var (orderPart, rest2) := ExtractClause(rest1, "ORDER BY");
    var rest3 := ExtractClause(rest2, "WHERE").1;
    ExtractLacks(rest, "LIMIT");
    ExtractLacks(rest1, "ORDER BY");
    ExtractKeeps(rest1, "ORDER BY", "LIMIT");
    ExtractLacks(rest2, "WHERE");
    ExtractKeeps(rest2, "WHERE", "LIMIT");
    ExtractKeeps(rest2, "WHERE", "ORDER BY");
    StripLacks(rest3, "LIMIT");
    StripLacks(rest3, "ORDER BY");
    StripLacks(rest3, "WHERE");
    if Present(limitPart) {
      PresentWord(rest, "LIMIT");
    }
    if Present(orderPart) {
      PresentWord(rest1, "ORDER BY");
    }
  }

  /** The query from the select list and the parsed tail. */
  function Assemble(columns: Option<seq<string>>,
                    tail: Result<(string, Option<(string, string)>, Option<string>, Option<string>)>): Result<Query>
  {
    match tail
    case Failure(e) => Failure(e)
    case Success((table, condition, orderBy, limit)) => Success(Query(table, columns, condition, orderBy, limit))
  }

  /** `_handle_select` up to the transaction: SELECT and FROM must occur
      (first occurrences, in the upper-cased command); the select list
      lies between them and the tail after FROM. */
  function ParseSelect(command: string): (r: Result<Query>)
    ensures Find(Upper(command), "SELECT").None? ==> r == Failure(KeywordMissing("SELECT"))
    ensures Find(Upper(command), "SELECT").Some? && Find(Upper(command), "FROM").None? ==>
              r == Failure(KeywordMissing("FROM"))
  {
    var u := Upper(command);
    match Find(u, "SELECT")
    case None => Failure(KeywordMissing("SELECT"))
    case Some(s) =>
      match Find(u, "FROM")
      case None => Failure(KeywordMissing("FROM"))
      case Some(f) =>
        Assemble(SelectList(Strip(Slice(command, s + |"SELECT"|, f))), SelectTail(Strip(command[f + |"FROM"|..])))
  }

  /** The keywords are their own upper case. */
  lemma KeywordsUpper()
    ensures Upper("SELECT") == "SELECT" && Upper("FROM") == "FROM" && Upper("WHERE") == "WHERE"
    ensures Upper("ORDER BY") == "ORDER BY" && Upper("LIMIT") == "LIMIT"
  {
  }

  lemma {:induction false} SelectFirst(rest: string)
    ensures Find(Upper("SELECT" + rest), "SELECT") == Some(0)
  {
    var t := "SELECT" + rest;
    assert t[0..6] == "SELECT";
    UpperSlice(t, 0, 6);
    KeywordsUpper();
    assert MatchesAt(Upper(t), "SELECT", 0);
  }

  /** A command `SELECT <cols> FROM <rest>`, with FROM first occurring
      where it is written, selects `cols` and parses `rest` as the tail. */
  lemma {:induction false} SelectHead(cols: string, rest: string)
    requires Trimmed(cols, IsSpace) && Trimmed(rest, IsSpace)
    requires NotBefore(Clause("SELECT " + cols, "FROM", rest), "FROM", |cols| + 8)
    ensures ParseSelect(Clause("SELECT " + cols, "FROM", rest)) == Assemble(SelectList(cols), SelectTail(rest))
  {
    var command := Clause("SELECT " + cols, "FROM", rest);
    var f := |cols| + 8;
    KeywordsAt(cols, rest);
    HeadSlices(cols, rest);
    StripBlanks(cols);
    StripBlank(rest);
    SelectAt(command, f);
  }

  lemma {:induction false} SelectAt(command: string, f: nat)
    requires Find(Upper(command), "SELECT") == Some(0) && Find(Upper(command), "FROM") == Some(f)
    ensures f + 4 <= |command|
    ensures ParseSelect(command) == Assemble(SelectList(Strip(Slice(command, 6, f))), SelectTail(Strip(command[f + 4..])))
  {
  }

  lemma {:induction false} KeywordsAt(cols: string, rest: string)
    requires NotBefore(Clause("SELECT " + cols, "FROM", rest), "FROM", |cols| + 8)
    ensures Find(Upper(Clause("SELECT " + cols, "FROM", rest)), "SELECT") == Some(0)
    ensures Find(Upper(Clause("SELECT " + cols, "FROM", rest)), "FROM") == Some(|cols| + 8)
  {
    var command := Clause("SELECT " + cols, "FROM", rest);
    assert command == "SELECT" + (" " + cols + " FROM " + rest);
    SelectFirst(" " + cols + " FROM " + rest);
    KeywordsUpper();
    KeywordAt("SELECT " + cols, "FROM", rest);
  }

  lemma {:induction false} HeadSlices(cols: string, rest: string)
    ensures Slice(Clause("SELECT " + cols, "FROM", rest), 6, |cols| + 8) == " " + cols + " "
    ensures Clause("SELECT " + cols, "FROM", rest)[|cols| + 12..] == " " + rest
  {
    var command := Clause("SELECT " + cols, "FROM", rest);
    assert command[6..|cols| + 8] == " " + cols + " ";
  }

  lemma {:induction false} StripBlanks(a: string)
    requires Trimmed(a, IsSpace)
    ensures Strip(" " + a + " ") == a
  {
    assert IsSpace(' ');
    StripSurrounded(" ", a, " ", IsSpace);
  }

  /** A tail naming only the table has no optional clause. */
  lemma {:induction false} TailBare(table: string)
    requires Trimmed(table, IsSpace)
    requires forall j :: 0 <= j ==> !MatchesAt(Upper(table), "LIMIT", j)
    requires forall j :: 0 <= j ==> !MatchesAt(Upper(table), "ORDER BY", j)
    requires forall j :: 0 <= j ==> !MatchesAt(Upper(table), "WHERE", j)
    ensures SelectTail(table) == Success((table, None, None, None))
  {
    assert ExtractClause(table, "LIMIT") == (None, table);
    assert ExtractClause(table, "ORDER BY") == (None, table);
    assert ExtractClause(table, "WHERE") == (None, table);
    assert Strip(table) == table;
  }

  /** `SELECT <cols> FROM <table>` reads the whole table. */
  lemma {:induction false} SelectAllRows(cols: string, table: string)
    requires Trimmed(cols, IsSpace) && Trimmed(table, IsSpace)
    requires NotBefore(Clause("SELECT " + cols, "FROM", table), "FROM", |cols| + 8)
    requires forall j :: 0 <= j ==> !MatchesAt(Upper(table), "LIMIT", j)
    requires forall j :: 0 <= j ==> !MatchesAt(Upper(table), "ORDER BY", j)
    requires forall j :: 0 <= j ==> !MatchesAt(Upper(table), "WHERE", j)
    ensures ParseSelect(Clause("SELECT " + cols, "FROM", table))
            == Success(Query(table, if cols == "*" then None else Some(StripAll(Split(cols, ','))), None, None, None))
  {
    SelectHead(cols, table);
    TailBare(table);
  }

  /** A word without blanks is its own first word. */
  lemma {:induction false} WordWhole(w: string)
    requires forall i :: 0 <= i < |w| ==> !IsSpace(w[i])
    ensures Word(w) == w
    decreases |w|
  {
    if |w| > 0 {
      WordWhole(w[1..]);
      assert w == [w[0]] + w[1..];
    }
  }

  /** A nonempty word without blanks. */
  predicate PlainWord(w: string)
  {
    |w| > 0 && forall i :: 0 <= i < |w| ==> !IsSpace(w[i])
  }

  lemma {:induction false} FirstWordWhole(w: string)
    requires PlainWord(w)
    ensures FirstWord(w) == w && Trimmed(w, IsSpace)
  {
    assert TrimLeft(w, IsSpace) == w;
    WordWhole(w);
  }

  /** `<col> = '<v>'`: a condition as written in a command. */
  function ConditionText(col: string, v: string): string
  {
    col + " = '" + v + "'"
  }

  lemma {:induction false} ConditionTrimmed(col: string, v: string)
    requires |col| > 0 && Trimmed(col, IsSpace)
    ensures Trimmed(ConditionText(col, v), IsSpace) && |ConditionText(col, v)| > 0
  {
    var cond := ConditionText(col, v);
    assert cond[0] == col[0];
    assert cond[|cond| - 1] == '\'';
  }

  /** A tail with every clause, each keyword first occurring where it is
      written: LIMIT, then ORDER BY, then WHERE come off in that order. */
  lemma {:induction false} TailFull(table: string, col: string, v: string, order: string, limit: string)
    requires Trimmed(table, IsSpace) && |table| > 0
    requires |col| > 0 && '=' !in col && Trimmed(col, IsSpace) && Trimmed(v, IsSpace) && Trimmed(v, IsQuote)
    requires PlainWord(order) && PlainWord(limit)
    requires var w := Clause(table, "WHERE", ConditionText(col, v));
             var o := Clause(w, "ORDER BY", order);
             && NotBefore(w, "WHERE", |table| + 1)
             && NotBefore(o, "ORDER BY", |w| + 1)
             && NotBefore(Clause(o, "LIMIT", limit), "LIMIT", |o| + 1)
    ensures SelectTail(Clause(Clause(Clause(table, "WHERE", ConditionText(col, v)), "ORDER BY", order), "LIMIT", limit))
            == Success((table, Some((col, v)), Some(order), Some(limit)))
  {
    var cond := ConditionText(col, v);
    var w := Clause(table, "WHERE", cond);
    var o := Clause(w, "ORDER BY", order);
    FirstWordWhole(order);
    FirstWordWhole(limit);
    ConditionTrimmed(col, v);
    ClauseTrimmed(table, "WHERE", cond);
    ClauseTrimmed(w, "ORDER BY", order);
    KeywordsUpper();
    ExtractRoundTrip(o, "LIMIT", limit);
    ExtractRoundTrip(w, "ORDER BY", order);
    ExtractRoundTrip(table, "WHERE", cond);
    ConditionRoundTrip(col, v);
    TailAt(Clause(o, "LIMIT", limit), o, w, table, limit, order, cond, (col, v));
  }

  /** Between trimmed nonempty ends the whole clause is trimmed. */
  lemma {:induction false} ClauseTrimmed(a: string, keyword: string, b: string)
    requires |a| > 0 && Trimmed(a, IsSpace) && |b| > 0 && Trimmed(b, IsSpace)
    ensures Trimmed(Clause(a, keyword, b), IsSpace) && |Clause(a, keyword, b)| > 0
  {
    var t := Clause(a, keyword, b);
    assert t[0] == a[0];
    assert t[|t| - 1] == b[|b| - 1];
  }

  /** The tail from what the three clause cuts returned. */
  lemma {:induction false} TailAt(rest: string, o: string, w: string, table: string, limit: string, order: string,
                                  cond: string, c: (string, string))
    requires ExtractClause(rest, "LIMIT") == (Some(limit), o) && limit != ""
    requires ExtractClause(o, "ORDER BY") == (Some(order), w) && order != ""
    requires ExtractClause(w, "WHERE") == (Some(cond), table) && cond != ""
    requires ParseCondition(Strip(cond)) == Success(c)
    ensures SelectTail(rest) == Success((Strip(table), Some(c), Some(FirstWord(order)), Some(FirstWord(limit))))
  {
  }

  /** `SELECT <cols> FROM <table> WHERE <col> = '<v>' ORDER BY <order>
      LIMIT <limit>` parses into the query it spells out. */
  lemma {:induction false} SelectRoundTrip(cols: string, table: string, col: string, v: string, order: string, limit: string)
    requires Trimmed(cols, IsSpace) && Trimmed(table, IsSpace) && |table| > 0
    requires |col| > 0 && '=' !in col && Trimmed(col, IsSpace) && Trimmed(v, IsSpace) && Trimmed(v, IsQuote)
    requires PlainWord(order) && PlainWord(limit)
    requires var w := Clause(table, "WHERE", ConditionText(col, v));
             var o := Clause(w, "ORDER BY", order);
             var rest := Clause(o, "LIMIT", limit);
             && NotBefore(Clause("SELECT " + cols, "FROM", rest), "FROM", |cols| + 8)
             && NotBefore(w, "WHERE", |table| + 1)
             && NotBefore(o, "ORDER BY", |w| + 1)
             && NotBefore(rest, "LIMIT", |o| + 1)
    ensures var rest := Clause(Clause(Clause(table, "WHERE", ConditionText(col, v)), "ORDER BY", order), "LIMIT", limit);
            ParseSelect(Clause("SELECT " + cols, "FROM", rest))
            == Success(Query(table, if cols == "*" then None else Some(StripAll(Split(cols, ','))),
                             Some((col, v)), Some(order), Some(limit)))
  {
    var w := Clause(table, "WHERE", ConditionText(col, v));
    var o := Clause(w, "ORDER BY", order);
    ConditionTrimmed(col, v);
    ClauseTrimmed(table, "WHERE", ConditionText(col, v));
    ClauseTrimmed(w, "ORDER BY", order);
    ClauseTrimmed(o, "LIMIT", limit);
    SelectHead(cols, Clause(o, "LIMIT", limit));
    TailFull(table, col, v, order, limit);
  }
}
