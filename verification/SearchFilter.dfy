/**
 What the backend request of a search asks for: its pages tile the results, and its filter text, read back as
 comparisons, admits exactly the published documents that meet every given category, level, duration and
 language. In a quoted value a backslash before a quote makes the quote part of the value.
 */
module SearchFilter {
  import opened Options
  import opened Text
  import opened UrlEncoding
  import opened SearchKey

  // ---- pages -------------------------------------------------------------------------------------------

  /** Pages of one limit start at result 0, each where the one before it ended; each result is on one page. */
  lemma PagesTile(n: Normal, result: nat)
    requires n.limit > 0
    ensures RequestFor(n).limit == n.limit && RequestFor(n).query == n.query
    ensures RequestFor(n.(page := 1)).offset == 0
    ensures RequestFor(n.(page := n.page + 1)).offset == RequestFor(n).offset + n.limit
    ensures RequestFor(n).offset <= result < RequestFor(n).offset + n.limit <==> n.page == result / n.limit + 1
  {
    hide Join, Quoted, LevelFilter, DurationFilter;
    var q := result / n.limit;
    assert result == n.limit * q + result % n.limit;
    assert RequestFor(n.(page := n.page + 1)).offset == n.page * n.limit;
    Product(n.page, n.limit);
    if n.page - 1 < q {
      Monotone(n.page, q, n.limit);
    } else if q < n.page - 1 {
      Monotone(q + 1, n.page - 1, n.limit);
      Product(q + 1, n.limit);
    }
  }

  lemma Product(x: int, y: int)
    ensures x * y == (x - 1) * y + y
  {
  }

  lemma Monotone(x: int, y: int, k: int)
    requires x <= y && k > 0
    ensures x * k <= y * k
  {
  }

  // ---- comparisons and their text ------------------------------------------------------------------------

  datatype Value = TextValue(text: string) | NumberValue(number: int)

  datatype Comparison = Comparison(field: string, op: string, value: Value)

  function ShowValue(v: Value): string {
    match v
    case TextValue(text) => "'" + Replace(text, "'", "\\'") + "'"
    case NumberValue(number) => Decimal(number)
  }

  function Show(c: Comparison): string {
    c.field + " " + c.op + " " + ShowValue(c.value)
  }

  function ShowEach(cs: seq<Comparison>): seq<string> {
    if cs == [] then [] else [Show(cs[0])] + ShowEach(cs[1..])
  }

  function ShowAll(cs: seq<Comparison>): string {
    Join(ShowEach(cs), " AND ")
  }

  // ---- reading it back -----------------------------------------------------------------------------------

  /** The value up to its closing quote, and the text behind the quote. */
  function ReadQuoted(s: string): (r: Option<(string, string)>)
    ensures r.Some? ==> |r.value.1| < |s|
  {
    if s == [] then None
    else if s[0] == '\'' then Some(("", s[1..]))
    else
      var escaped := |s| >= 2 && s[0] == '\\' && s[1] == '\'';
      match ReadQuoted(if escaped then s[2..] else s[1..])
      case None => None
      case Some((text, rest)) => Some(([if escaped then '\'' else s[0]] + text, rest))
  }

  function ReadValue(s: string): (r: Option<(Value, string)>)
    ensures r.Some? ==> |r.value.1| <= |s|
  {
    if s != [] && s[0] == '\'' then
      var r := ReadQuoted(s[1..]);
      if r.None? then None else Some((TextValue(r.value.0), r.value.1))
    else
      var k := IndexOf(s, ' ');
      Some((NumberValue(ParseDecimal(s[..k])), s[k..]))
  }

  /** The text up to a space, and the text behind it. */
  function ReadWord(s: string): (r: Option<(string, string)>)
    ensures r.Some? ==> |r.value.1| < |s|
  {
    var i := IndexOf(s, ' ');
    if i == |s| then None else Some((s[..i], s[i + 1..]))
  }

  function ReadComparison(s: string): (r: Option<(Comparison, string)>)
    ensures r.Some? ==> |r.value.1| < |s|
  {
    var field := ReadWord(s);
    if field.None? then None
    else
      var op := ReadWord(field.value.1);
      if op.None? then None
      else
        var value := ReadValue(op.value.1);
        if value.None? then None
        else Some((Comparison(field.value.0, op.value.0, value.value.0), value.value.1))
  }

  function ReadFilter(s: string): Option<seq<Comparison>>
    decreases |s|
  {
    match ReadComparison(s)
    case None => None
    case Some((c, rest)) =>
      if rest == [] then Some([c])
      else if !(" AND " <= rest) then None
      else
        match ReadFilter(rest[5..])
        case None => None
        case Some(cs) => Some([c] + cs)
  }

  // ---- a value is read back unless it ends in a backslash --------------------------------------------------

  predicate ReadsBack(v: Value) {
    v.TextValue? ==> v.text == [] || v.text[|v.text| - 1] != '\\'
  }

  lemma EscapedHead(c: char, rest: string)
    ensures Replace([c] + rest, "'", "\\'") == (if c == '\'' then "\\'" else [c]) + Replace(rest, "'", "\\'")
  {
    ReplaceConcat([c], rest, '\'', "\\'");
    ReplaceOne(c, '\'', "\\'");
  }

  function Prefixed(c: char, r: Option<(string, string)>): Option<(string, string)> {
    if r.None? then None else Some(([c] + r.value.0, r.value.1))
  }

  lemma ReadEscaped(tail: string)
    ensures ReadQuoted("\\'" + tail) == Prefixed('\'', ReadQuoted(tail))
  {
    var s := "\\'" + tail;
    assert s[0] == '\\' && s[1] == '\'' && s[2..] == tail;
  }

  lemma ReadPlain(c: char, tail: string)
    requires c != '\'' && !(c == '\\' && tail != [] && tail[0] == '\'')
    ensures ReadQuoted([c] + tail) == Prefixed(c, ReadQuoted(tail))
  {
    var s := [c] + tail;
    assert s[0] == c && s[1..] == tail && (tail != [] ==> s[1] == tail[0]);
  }

  lemma ReadClosing(rest: string)
    ensures ReadQuoted("'" + rest) == Some(("", rest))
  {
    var s := "'" + rest;
    assert s[0] == '\'' && s[1..] == rest;
  }

  /** The escaped text with its closing quote and what follows. */
  function Closed(v: string, rest: string): string {
    Replace(v, "'", "\\'") + "'" + rest
  }

  /** After an escaped text comes its closing quote at once only if the text is empty. */
  lemma ClosedHead(v: string, rest: string)
    ensures Closed(v, rest) != [] && (Closed(v, rest)[0] == '\'' <==> v == [])
  {
    if v != [] {
      assert v == [v[0]] + v[1..];
      EscapedHead(v[0], v[1..]);
    }
  }

  /** Reading a closed text one character at a time; a last backslash swallows the closing quote. */
  lemma ClosedIsRead(v: string, rest: string)
    ensures v == [] ==> ReadQuoted(Closed(v, rest)) == Some(("", rest))
    ensures v != [] && v[0] == '\'' ==> ReadQuoted(Closed(v, rest)) == Prefixed('\'', ReadQuoted(Closed(v[1..], rest)))
    ensures v != [] && v[0] == '\\' && |v| == 1 ==> ReadQuoted(Closed(v, rest)) == Prefixed('\'', ReadQuoted(rest))
    ensures v != [] && v[0] != '\'' && !(v[0] == '\\' && |v| == 1) ==>
      ReadQuoted(Closed(v, rest)) == Prefixed(v[0], ReadQuoted(Closed(v[1..], rest)))
  {
    if v == [] {
      assert Closed(v, rest) == "'" + rest;
      ReadClosing(rest);
    } else {
      assert v == [v[0]] + v[1..];
      EscapedHead(v[0], v[1..]);
      ClosedHead(v[1..], rest);
      var tail := Closed(v[1..], rest);
      if v[0] == '\'' {
        assert Closed(v, rest) == "\\'" + tail;
        ReadEscaped(tail);
      } else if v[0] == '\\' && |v| == 1 {
        NothingReplaced(v[1..]);
        hide ReadQuoted, Replace;
        assert Closed(v, rest) == "\\'" + rest;
        ReadEscaped(rest);
      } else {
        assert Closed(v, rest) == [v[0]] + tail;
        ReadPlain(v[0], tail);
      }
    }
  }

  lemma {:induction false} QuotedIsRead(v: string, rest: string)
    ensures
      var r := ReadQuoted(Closed(v, rest));
      && (ReadsBack(TextValue(v)) ==> r == Some((v, rest)))
      && (!ReadsBack(TextValue(v)) ==> r.None? || (|r.value.0| >= |v| && r.value.0[|v| - 1] == '\''))
  {
    hide ReadQuoted, Closed;
    ClosedIsRead(v, rest);
    if v != [] {
      assert v == [v[0]] + v[1..];
      QuotedIsRead(v[1..], rest);
    }
  }

  lemma NothingReplaced(s: string)
    requires s == []
    ensures Replace(s, "'", "\\'") == []
  {
  }

  lemma {:induction false} DigitsPlain(n: nat)
    ensures forall c | c in Digits(n) :: '0' <= c <= '9'
  {
    if n >= 10 {
      DigitsPlain(n / 10);
    }
  }

  lemma DecimalPlain(n: int)
    ensures ' ' !in Decimal(n) && Decimal(n) != [] && Decimal(n)[0] != '\''
  {
    DigitsPlain(if n < 0 then -n else n);
    DigitsRoundTrip(if n < 0 then -n else n);
    assert Decimal(n)[0] in Decimal(n);
  }

  lemma IndexAtEnd(a: string, c: char, b: string)
    requires c !in a && (b == [] || b[0] == c)
    ensures IndexOf(a + b, c) == |a| && (a + b)[..|a|] == a && (a + b)[|a|..] == b
  {
    if b == [] {
      assert a + b == a;
      var i := IndexOf(a, c);
      assert forall k | 0 <= k < |a| :: a[k] in a && a[k] != c;
    } else {
      IndexOfJoint(a, c, b[1..]);
      assert a + b == a + [c] + b[1..];
    }
  }

  ghost predicate Plain(c: Comparison) {
    ' ' !in c.field && ' ' !in c.op
  }

  lemma WordIsRead(a: string, b: string)
    requires ' ' !in a
    ensures ReadWord(a + " " + b) == Some((a, b))
  {
    var s := a + [' '] + b;
    assert a + " " + b == s;
    IndexOfJoint(a, ' ', b);
    assert s[..|a|] == a && s[|a| + 1..] == b;
  }

  lemma Regrouped(a: string, b: string, c: string, d: string)
    ensures a + " " + b + " " + c + d == a + " " + (b + " " + (c + d))
  {
  }

  /** Reading a comparison's text reads its value's. */
  lemma ComparisonIsSplit(c: Comparison, rest: string)
    requires Plain(c)
    ensures
      var r := ReadValue(ShowValue(c.value) + rest);
      ReadComparison(Show(c) + rest) ==
        if r.None? then None else Some((Comparison(c.field, c.op, r.value.0), r.value.1))
  {
    hide ReadWord, ReadValue, ShowValue;
    var value := ShowValue(c.value) + rest;
    Regrouped(c.field, c.op, ShowValue(c.value), rest);
    WordIsRead(c.field, c.op + " " + value);
    WordIsRead(c.op, value);
  }

  lemma ValueIsRead(v: Value, rest: string)
    requires rest == [] || rest[0] == ' '
    ensures
      var r := ReadValue(ShowValue(v) + rest);
      && (ReadsBack(v) ==> r == Some((v, rest)))
      && (!ReadsBack(v) ==> r.None? || r.value.0 != v)
  {
    hide ReadQuoted, Replace, IndexOf, ParseDecimal, Decimal, Closed;
    var s := ShowValue(v) + rest;
    match v
    case TextValue(text) =>
      QuotedIsRead(text, rest);
      TextShown(text, rest);
    case NumberValue(number) =>
      DecimalPlain(number);
      DecimalRoundTrip(number);
      IndexAtEnd(Decimal(number), ' ', rest);
      assert s[0] == Decimal(number)[0];
  }

  lemma ComparisonIsRead(c: Comparison, rest: string)
    requires Plain(c) && (rest == [] || rest[0] == ' ')
    ensures
      var r := ReadComparison(Show(c) + rest);
      && (ReadsBack(c.value) ==> r == Some((c, rest)))
      && (!ReadsBack(c.value) ==> r.None? || r.value.0 != c)
  {
    hide ReadComparison, Show, ReadValue, ShowValue, ReadsBack;
    ComparisonIsSplit(c, rest);
    ValueIsRead(c.value, rest);
  }

  lemma TextShown(text: string, rest: string)
    ensures
      var s2 := ShowValue(TextValue(text)) + rest;
      s2 != [] && s2[0] == '\'' && s2[1..] == Closed(text, rest)
  {
    hide Replace;
  }

  lemma FirstIsRead(s: string)
    ensures ReadFilter(s).Some? ==>
      ReadComparison(s).Some? && ReadFilter(s).value != [] && ReadFilter(s).value[0] == ReadComparison(s).value.0
  {
    hide ReadComparison;
  }

  lemma MoreIsRead(s: string, c: Comparison, tail: string)
    requires ReadComparison(s) == Some((c, " AND " + tail))
    ensures ReadFilter(s) == if ReadFilter(tail).None? then None else Some([c] + ReadFilter(tail).value)
  {
    hide ReadComparison;
    assert (" AND " + tail)[5..] == tail;
  }

  lemma ShowAllCons(cs: seq<Comparison>)
    requires |cs| > 1
    ensures ShowAll(cs) == Show(cs[0]) + (" AND " + ShowAll(cs[1..]))
  {
    hide Show;
    assert ShowEach(cs)[1..] == ShowEach(cs[1..]) && ShowEach(cs[1..]) != [];
  }

  /** The text of a list of comparisons is read back as that list exactly when no text value ends in a backslash. */
  lemma {:induction false} FilterIsRead(cs: seq<Comparison>)
    requires cs != [] && forall c | c in cs :: Plain(c)
    ensures ReadFilter(ShowAll(cs)) == Some(cs) <==> forall c | c in cs :: ReadsBack(c.value)
  {
    hide Show, ShowAll, ReadFilter, ReadComparison, ReadsBack, Plain;
    var c, more := cs[0], cs[1..];
    assert c in cs && forall d | d in more :: d in cs;
    assert cs == [c] + more;
    assert (forall d | d in cs :: ReadsBack(d.value)) <==>
      ReadsBack(c.value) && forall d | d in more :: ReadsBack(d.value);
    FirstIsRead(ShowAll(cs));
    if more == [] {
      assert cs == [c];
      ShowAllOne(c);
      ComparisonIsRead(c, []);
      OneIsRead(ShowAll(cs), c);
    } else {
      var tail := ShowAll(more);
      FilterIsRead(more);
      ShowAllCons(cs);
      ComparisonIsRead(c, " AND " + tail);
      if ReadsBack(c.value) {
        MoreIsRead(ShowAll(cs), c, tail);
        assert ReadFilter(tail).Some? ==> ([c] + ReadFilter(tail).value)[1..] == ReadFilter(tail).value;
      }
    }
  }

  lemma ShowAllOne(c: Comparison)
    ensures ShowAll([c]) == Show(c) + []
  {
    hide Show;
    assert [c][1..] == [] && ShowEach([c]) == [Show(c)];
  }

  lemma OneIsRead(s: string, c: Comparison)
    ensures ReadComparison(s) == Some((c, [])) ==> ReadFilter(s) == Some([c])
  {
    hide ReadComparison;
  }

  // ---- the filter of a search ------------------------------------------------------------------------------

  function TextIs(field: string, text: string): seq<Comparison> {
    if text == "" then [] else [Comparison(field, "=", TextValue(text))]
  }

  function Minutes(op: string, n: int): Comparison {
    Comparison("duration_minutes", op, NumberValue(n))
  }

  function DurationIs(duration: string): seq<Comparison> {
    if duration == "0-15" then [Minutes(">=", 0), Minutes("<=", 15)]
    else if duration == "15-30" then [Minutes(">", 15), Minutes("<=", 30)]
    else if duration == "30+" then [Minutes(">", 30)]
    else []
  }

  function LevelIs(level: Option<int>): seq<Comparison> {
    if level.Some? && level.value in [1, 2, 3] then [Comparison("competency_level", "=", NumberValue(level.value))]
    else []
  }

  function Comparisons(n: Normal): seq<Comparison> {
    TextIs("status", "published") + TextIs("category", n.category) + LevelIs(n.level) + DurationIs(n.duration)
      + TextIs("language", n.language)
  }

  lemma {:induction false} JoinParts(a: seq<string>, b: seq<string>)
    requires a != [] && b != []
    ensures Join(a + b, " AND ") == Join(a, " AND ") + " AND " + Join(b, " AND ")
  {
    if |a| == 1 {
      assert a + b == [a[0]] + b && (a + b)[1..] == b;
    } else {
      JoinParts(a[1..], b);
      assert (a + b)[1..] == a[1..] + b;
    }
  }

  /** Both lists of parts join to the same text, wherever they stand. */
  lemma JoinSame(before: seq<string>, a: seq<string>, b: seq<string>, after: seq<string>)
    requires before != [] && (a == [] <==> b == []) && Join(a, " AND ") == Join(b, " AND ")
    ensures Join(before + a + after, " AND ") == Join(before + b + after, " AND ")
  {
    hide Join;
    if a != [] {
      JoinParts(before, a);
      JoinParts(before, b);
      if after == [] {
        assert before + a + after == before + a && before + b + after == before + b;
      } else {
        JoinParts(before + a, after);
        JoinParts(before + b, after);
      }
    } else {
      assert a == b;
    }
  }

  lemma {:induction false} ShowParts(a: seq<Comparison>, b: seq<Comparison>)
    ensures ShowEach(a + b) == ShowEach(a) + ShowEach(b)
  {
    if a == [] {
      assert a + b == b;
    } else {
      assert (a + b)[1..] == a[1..] + b;
      ShowParts(a[1..], b);
    }
  }

  lemma ShowOne(c: Comparison)
    ensures ShowEach([c]) == [Show(c)]
  {
    assert [c][1..] == [];
  }

  lemma QuotedShown(field: string, text: string)
    ensures ShowEach(TextIs(field, text)) == Quoted(field + " = '", text)
  {
    if text != "" {
      ShowOne(Comparison(field, "=", TextValue(text)));
      assert Show(Comparison(field, "=", TextValue(text))) == field + " = '" + Replace(text, "'", "\\'") + "'";
    }
  }

  lemma LevelShown(level: Option<int>)
    ensures ShowEach(LevelIs(level)) == LevelFilter(level)
  {
    if level.Some? && level.value in [1, 2, 3] {
      LevelText(level.value);
      ShowOne(Comparison("competency_level", "=", NumberValue(level.value)));
      assert Show(Comparison("competency_level", "=", NumberValue(level.value))) ==
        "competency_level = " + Decimal(level.value);
    }
  }

  lemma MinutesShown()
    ensures Show(Minutes(">=", 0)) == "duration_minutes >= 0" && Show(Minutes("<=", 15)) == "duration_minutes <= 15"
    ensures Show(Minutes(">", 15)) == "duration_minutes > 15" && Show(Minutes("<=", 30)) == "duration_minutes <= 30"
    ensures Show(Minutes(">", 30)) == "duration_minutes > 30"
  {
    assert Decimal(0) == "0" && Decimal(15) == "15" && Decimal(30) == "30" by {
      assert Digits(15) == Digits(1) + "5" && Digits(30) == Digits(3) + "0";
    }
  }

  lemma JoinTwo(a: string, b: string)
    ensures Join([a, b], " AND ") == Join([a + " AND " + b], " AND ") == a + " AND " + b
  {
    assert [a, b][1..] == [b];
  }

  lemma ShowTwo(c: Comparison, d: Comparison)
    ensures ShowEach([c, d]) == [Show(c), Show(d)]
  {
    ShowOne(d);
    assert [c, d][1..] == [d];
  }

  lemma DurationShown(duration: string)
    ensures Join(ShowEach(DurationIs(duration)), " AND ") == Join(DurationFilter(duration), " AND ")
    ensures ShowEach(DurationIs(duration)) == [] <==> DurationFilter(duration) == []
  {
    MinutesShown();
    ShortTexts();
    MiddleTexts();
    hide Show, Join, ShowEach, Minutes;
    if duration == "0-15" {
      ShowTwo(Minutes(">=", 0), Minutes("<=", 15));
      JoinTwo("duration_minutes >= 0", "duration_minutes <= 15");
    } else if duration == "15-30" {
      ShowTwo(Minutes(">", 15), Minutes("<=", 30));
      JoinTwo("duration_minutes > 15", "duration_minutes <= 30");
    } else if duration == "30+" {
      ShowOne(Minutes(">", 30));
    } else {
      ShowNothing();
    }
  }

  lemma ShortTexts()
    ensures "duration_minutes >= 0" + " AND " + "duration_minutes <= 15" ==
      "duration_minutes >= 0 AND duration_minutes <= 15"
  {
    hide *;
  }

  lemma MiddleTexts()
    ensures "duration_minutes > 15" + " AND " + "duration_minutes <= 30" ==
      "duration_minutes > 15 AND duration_minutes <= 30"
  {
    hide *;
  }

  lemma PublishedInert()
    ensures Replace("published", "'", "\\'") == "published"
  {
    hide Replace;
    assert '\'' !in "published";
    Inert("published", '\'', "\\'");
    assert ['\''] == "'";
  }

  lemma StatusText()
    ensures "status" + " = '" == "status = '" && "status = '" + "published" + "'" == "status = 'published'"
  {
  }

  lemma ShowNothing()
    ensures ShowEach([]) == []
  {
  }

  lemma StatusShown()
    ensures ShowEach(TextIs("status", "published")) == ["status = 'published'"]
  {
    hide Replace, ShowEach, TextIs;
    QuotedShown("status", "published");
    PublishedInert();
    StatusText();
  }

  /** The filter text is the text of the comparisons. */
  lemma FilterShown(n: Normal)
    ensures RequestFor(n).filter == ShowAll(Comparisons(n))
  {
    hide Join, Show, ShowEach, Quoted, LevelFilter, DurationFilter, TextIs, LevelIs, DurationIs;
    var status, category := TextIs("status", "published"), TextIs("category", n.category);
    var level, duration, language := LevelIs(n.level), DurationIs(n.duration), TextIs("language", n.language);
    StatusShown();
    QuotedShown("category", n.category);
    LevelShown(n.level);
    DurationShown(n.duration);
    QuotedShown("language", n.language);
    assert "category" + " = '" == "category = '" && "language" + " = '" == "language = '";
    ShowParts(status, category);
    ShowParts(status + category, level);
    ShowParts(status + category + level, duration);
    ShowParts(status + category + level + duration, language);
    var before := ["status = 'published'"] + Quoted("category = '", n.category) + LevelFilter(n.level);
    JoinSame(before, ShowEach(duration), DurationFilter(n.duration), Quoted("language = '", n.language));
  }

  /** What a filter can see of a document. */
  datatype Document = Document(
    status: string, category: Option<string>, level: int, minutes: Option<int>, language: string)

  function TextOf(d: Document, field: string): Option<string> {
    if field == "status" then Some(d.status)
    else if field == "category" then d.category
    else if field == "language" then Some(d.language)
    else None
  }

  function NumberOf(d: Document, field: string): Option<int> {
    if field == "competency_level" then Some(d.level)
    else if field == "duration_minutes" then d.minutes
    else None
  }

  predicate Compares(a: int, op: string, b: int) {
    || (op == "=" && a == b) || (op == "<" && a < b) || (op == "<=" && a <= b)
    || (op == ">" && a > b) || (op == ">=" && a >= b)
  }

  /** A document lacking the field meets no comparison of it. */
  predicate Meets(d: Document, c: Comparison) {
    match c.value
    case TextValue(text) => c.op == "=" && TextOf(d, c.field) == Some(text)
    case NumberValue(number) => NumberOf(d, c.field).Some? && Compares(NumberOf(d, c.field).value, c.op, number)
  }

  ghost predicate Passes(d: Document, filter: string) {
    ReadFilter(filter).Some? && forall c | c in ReadFilter(filter).value :: Meets(d, c)
  }

  /** The three duration ranges: up to 15 minutes, over 15 up to 30, over 30. */
  predicate DurationFits(minutes: Option<int>, duration: string) {
    && (duration == "0-15" ==> minutes.Some? && 0 <= minutes.value <= 15)
    && (duration == "15-30" ==> minutes.Some? && 15 < minutes.value <= 30)
    && (duration == "30+" ==> minutes.Some? && minutes.value > 30)
  }

  predicate Wanted(d: Document, n: Normal) {
    && d.status == "published"
    && (n.category != "" ==> d.category == Some(n.category))
    && (n.level.Some? && 1 <= n.level.value <= 3 ==> d.level == n.level.value)
    && DurationFits(d.minutes, n.duration)
    && (n.language != "" ==> d.language == n.language)
  }

  lemma MeetsAll(n: Normal, d: Document)
    ensures (forall c | c in Comparisons(n) :: Meets(d, c)) <==> Wanted(d, n)
  {
    var cs := Comparisons(n);
    assert Comparison("status", "=", TextValue("published")) in cs;
    PartMeets(TextIs("category", n.category), d, n.category == "" || d.category == Some(n.category));
    PartMeets(TextIs("language", n.language), d, n.language == "" || d.language == n.language);
    LevelMeets(n.level, d);
    DurationMeets(n.duration, d);
    hide Meets, TextIs, LevelIs, DurationIs;
    var a, b := TextIs("status", "published"), TextIs("category", n.category);
    assert forall c :: c in cs <==>
      c in a || c in b || c in LevelIs(n.level) || c in DurationIs(n.duration) || c in TextIs("language", n.language);
    StatusMeets(d);
  }

  lemma StatusMeets(d: Document)
    ensures (forall c | c in TextIs("status", "published") :: Meets(d, c)) <==> d.status == "published"
  {
    assert Comparison("status", "=", TextValue("published")) in TextIs("status", "published");
  }

  lemma PartMeets(cs: seq<Comparison>, d: Document, wanted: bool)
    requires |cs| <= 1 && (cs == [] ==> wanted) && (cs != [] ==> (Meets(d, cs[0]) <==> wanted))
    ensures (forall c | c in cs :: Meets(d, c)) <==> wanted
  {
    assert cs != [] ==> cs[0] in cs;
  }

  lemma LevelMeets(level: Option<int>, d: Document)
    ensures (forall c | c in LevelIs(level) :: Meets(d, c)) <==>
      (level.Some? && 1 <= level.value <= 3 ==> d.level == level.value)
  {
    var cs := LevelIs(level);
    assert cs != [] ==> cs[0] in cs;
  }

  lemma DurationMeets(duration: string, d: Document)
    ensures (forall c | c in DurationIs(duration) :: Meets(d, c)) <==> DurationFits(d.minutes, duration)
  {
    var cs := DurationIs(duration);
    assert forall i | 0 <= i < |cs| :: cs[i] in cs;
    assert forall c | c in cs :: c == cs[0] || c == cs[|cs| - 1];
    if cs != [] {
      assert cs[0] in cs && cs[|cs| - 1] in cs;
    }
  }

  /** A property of all comparisons of a search is one of its five parts. */
  lemma PartsOf(n: Normal, c: Comparison)
    ensures c in Comparisons(n) <==>
      || c in TextIs("status", "published") || c in TextIs("category", n.category) || c in LevelIs(n.level)
      || c in DurationIs(n.duration) || c in TextIs("language", n.language)
  {
    hide TextIs, LevelIs, DurationIs;
  }

  lemma PartPlain(field: string, text: string)
    requires ' ' !in field
    ensures forall c | c in TextIs(field, text) :: Plain(c)
    ensures (forall c | c in TextIs(field, text) :: ReadsBack(c.value)) <==> ReadsBack(TextValue(text))
  {
    var cs := TextIs(field, text);
    assert cs != [] ==> cs[0] in cs;
  }

  lemma MinutesPlain(op: string, n: int)
    requires ' ' !in op
    ensures Plain(Minutes(op, n)) && ReadsBack(Minutes(op, n).value)
  {
  }

  lemma NumbersPlain(n: Normal)
    ensures forall c | c in LevelIs(n.level) || c in DurationIs(n.duration) :: Plain(c) && ReadsBack(c.value)
  {
    MinutesPlain(">=", 0);
    MinutesPlain("<=", 15);
    MinutesPlain(">", 15);
    MinutesPlain("<=", 30);
    MinutesPlain(">", 30);
    hide Minutes;
  }

  lemma AllPlain(n: Normal)
    ensures Comparisons(n) != [] && forall c | c in Comparisons(n) :: Plain(c)
    ensures (forall c | c in Comparisons(n) :: ReadsBack(c.value)) <==>
      ReadsBack(TextValue(n.category)) && ReadsBack(TextValue(n.language))
  {
    PartPlain("status", "published");
    PartPlain("category", n.category);
    PartPlain("language", n.language);
    NumbersPlain(n);
    assert TextIs("status", "published") != [] && ReadsBack(TextValue("published"));
    hide TextIs, LevelIs, DurationIs, Plain, ReadsBack;
    forall c
      ensures c in Comparisons(n) <==>
        || c in TextIs("status", "published") || c in TextIs("category", n.category) || c in LevelIs(n.level)
        || c in DurationIs(n.duration) || c in TextIs("language", n.language)
    {
      PartsOf(n, c);
    }
  }

  /** The filter is read as meant exactly when neither the category nor the language ends in a backslash. */
  lemma FilterReadExactly(n: Normal)
    ensures ReadFilter(RequestFor(n).filter) == Some(Comparisons(n)) <==>
      ReadsBack(TextValue(n.category)) && ReadsBack(TextValue(n.language))
  {
    hide ReadFilter, ShowAll, RequestFor, Comparisons, ReadsBack, Plain;
    FilterShown(n);
    AllPlain(n);
    FilterIsRead(Comparisons(n));
  }

  /** A category that is a lone backslash is not: its backslash takes the closing quote into the value. */
  lemma LoneBackslash()
    ensures
      var n := Normal("", "\\", None, "", "", 1, 20);
      ReadFilter(RequestFor(n).filter) != Some(Comparisons(n))
  {
    hide ReadFilter, RequestFor, Comparisons;
    FilterReadExactly(Normal("", "\\", None, "", "", 1, 20));
  }

  /** Read as meant, it is passed by exactly the published documents that meet everything the search gives. */
  lemma FilterMeans(n: Normal, d: Document)
    requires ReadsBack(TextValue(n.category)) && ReadsBack(TextValue(n.language))
    ensures Passes(d, RequestFor(n).filter) <==> Wanted(d, n)
  {
    hide ReadFilter, RequestFor, Comparisons, ReadsBack, Meets, Wanted;
    FilterReadExactly(n);
    MeetsAll(n, d);
  }
}
