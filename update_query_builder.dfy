/**
 * UpdateQueryBuilder: renders the SET and WHERE fragments of a dynamic SQL
 * UPDATE from an ordered sequence of (column, value) entries.
 */
module UpdateQueryBuilder {
  import opened Wrappers
  import opened JavaText

  /** java.time.LocalDateTime, field by field. */
  datatype LocalDateTime = LocalDateTime(year: int, month: nat, day: nat, hour: nat, minute: nat, second: nat, nano: nat)

  /** A map value as getQuerySet distinguishes it: null, a LocalDateTime, or
      any other object, given by its toString() text. */
  datatype SqlValue = SqlNull | Timestamp(time: LocalDateTime) | Plain(text: string)

  /** One map entry, in the map's iteration order. */
  datatype Entry = Entry(column: string, value: SqlValue)

  /** The statement the MyBatis SQL builder assembles: table, SET fragment, WHERE fragment. */
  datatype UpdateStatement = UpdateStatement(table: string, setClause: string, whereClause: string)

  const SET_DELIMITER := ","
  const WHERE_DELIMITER := "AND"

  function Zeros(k: nat): (z: string)
    ensures |z| == k
  {
    if k == 0 then "" else Zeros(k - 1) + "0"
  }

  /** n in decimal, left-padded with '0' to at least `width` characters. */
  function Pad(n: nat, width: nat): string {
    var d := Digits(n);
    if |d| >= width then d else Zeros(width - |d|) + d
  }

  /** The "yyyy" field: year-of-era, at least four digits, '+' when it needs more. */
  function YearText(year: int): string {
    var yearOfEra := if year >= 1 then year else 1 - year;
    if yearOfEra > 9999 then "+" + Digits(yearOfEra) else Pad(yearOfEra, 4)
  }

  /** The pattern "yyyy-MM-dd HH:mm:ss.SSS" in Locale.US. */
  function FormatTimestamp(t: LocalDateTime): string {
    YearText(t.year) + "-" + Pad(t.month, 2) + "-" + Pad(t.day, 2) + " "
    + Pad(t.hour, 2) + ":" + Pad(t.minute, 2) + ":" + Pad(t.second, 2) + "." + Pad(t.nano / 1000000, 3)
  }

  /** One assignment: `col = null`, `col = '<timestamp>'` or `col = '<text>'`, never escaped. */
  function Render(e: Entry): string {
    match e.value
    case SqlNull => e.column + " = null"
    case Timestamp(t) => e.column + " = '" + FormatTimestamp(t) + "'"
    case Plain(text) => e.column + " = '" + text + "'"
  }

  function RenderAll(entries: seq<Entry>): (parts: seq<string>)
    ensures |parts| == |entries|
    ensures forall i :: 0 <= i < |entries| ==> parts[i] == Render(entries[i])
  {
    seq(|entries|, i requires 0 <= i < |entries| => Render(entries[i]))
  }

  /** The delimiter as appended between entries: one space on each side. */
  function Separator(delimiter: string): string {
    " " + delimiter + " "
  }

  /** The parts with the separator between consecutive parts only. */
  function Join(parts: seq<string>, separator: string): string
    decreases |parts|
  {
    if |parts| == 0 then ""
    else if |parts| == 1 then parts[0]
    else Join(parts[..|parts| - 1], separator) + separator + parts[|parts| - 1]
  }

  function TotalLength(parts: seq<string>): nat
    decreases |parts|
  {
    if parts == [] then 0 else TotalLength(parts[..|parts| - 1]) + |parts[|parts| - 1]|
  }

  /** Where part k starts in Join(parts, separator). */
  function Offset(parts: seq<string>, separator: string, k: nat): nat
    requires k <= |parts|
  {
    TotalLength(parts[..k]) + k * |separator|
  }

  /**
   * getQuerySet: appends each rendered entry and, unless it is the last one,
   * the delimiter with a space on each side.
   */
  method GetQuerySet(entries: seq<Entry>, delimiter: string) returns (querySet: string)
    ensures querySet == Join(RenderAll(entries), Separator(delimiter))
    ensures entries == [] ==> querySet == ""
  {
    ghost var parts := RenderAll(entries);
    var separator := Separator(delimiter);
    var updateSet := "";
    var index := 0;
    while index < |entries|
      invariant 0 <= index <= |entries|
      invariant updateSet == if 0 < index < |entries| then Join(parts[..index], separator) + separator
                             else Join(parts[..index], separator)
    {
      var rendered := Render(entries[index]);
      AppendRendered(parts, separator, index, updateSet);
      updateSet := updateSet + rendered;
      if index != |entries| - 1 {
        updateSet := updateSet + separator;
      }
      index := index + 1;
    }
    assert parts[..index] == parts;
    querySet := updateSet;
  }

  /** update: SET joins the updates with ",", WHERE joins the conditions with "AND". */
  method Update(tableName: string, updates: seq<Entry>, conditions: seq<Entry>) returns (query: UpdateStatement)
    ensures query.table == tableName
    ensures query.setClause == Join(RenderAll(updates), Separator(SET_DELIMITER))
    ensures query.whereClause == Join(RenderAll(conditions), Separator(WHERE_DELIMITER))
  {
    var setClause := GetQuerySet(updates, SET_DELIMITER);
    var whereClause := GetQuerySet(conditions, WHERE_DELIMITER);
    query := UpdateStatement(tableName, setClause, whereClause);
  }

  /** One step of getQuerySet: the fragment so far, plus part k, is the join of the first k + 1 parts. */
  lemma AppendRendered(parts: seq<string>, separator: string, k: nat, sofar: string)
    requires k < |parts|
    requires sofar == if 0 < k then Join(parts[..k], separator) + separator else Join(parts[..k], separator)
    ensures sofar + parts[k] == Join(parts[..k + 1], separator)
  {
    assert parts[..k + 1] == parts[..k] + [parts[k]];
    JoinAppend(parts[..k], parts[k], separator);
  }

  /** Appending a part adds the separator and the part, or just the part to an empty list. */
  lemma JoinAppend(parts: seq<string>, part: string, separator: string)
    ensures Join(parts + [part], separator) == if parts == [] then part else Join(parts, separator) + separator + part
  {
    assert (parts + [part])[..|parts|] == parts;
  }

  lemma TotalLengthStep(parts: seq<string>, k: nat)
    requires k < |parts|
    ensures TotalLength(parts[..k + 1]) == TotalLength(parts[..k]) + |parts[k]|
  {
    assert parts[..k + 1][..k] == parts[..k];
  }

  lemma {:induction false} JoinLength(parts: seq<string>, separator: string)
    requires |parts| >= 1
    ensures |Join(parts, separator)| == TotalLength(parts) + (|parts| - 1) * |separator|
    decreases |parts|
  {
    var n := |parts|;
    if n == 1 {
      assert parts[..0] == [];
    } else {
      JoinLength(parts[..n - 1], separator);
    }
  }

  /** Joining a leading slice of the parts gives a prefix of the whole fragment. */
  lemma {:induction false} JoinPrefix(parts: seq<string>, separator: string, m: nat)
    requires 1 <= m <= |parts|
    ensures Join(parts[..m], separator) <= Join(parts, separator)
    decreases |parts| - m
  {
    var n := |parts|;
    if m == n {
      assert parts[..m] == parts;
    } else {
      var init := parts[..n - 1];
      assert init[..m] == parts[..m];
      JoinPrefix(init, separator, m);
      assert Join(init, separator) <= Join(parts, separator);
    }
  }

  lemma JoinStep(parts: seq<string>, separator: string, k: nat)
    requires 1 <= k < |parts|
    ensures Join(parts[..k + 1], separator) == Join(parts[..k], separator) + separator + parts[k]
  {
    assert parts[..k + 1][..k] == parts[..k];
  }

  /** Join(parts[..k]) ends exactly where the separator before part k begins. */
  lemma OffsetAfterPrefix(parts: seq<string>, separator: string, k: nat)
    requires 1 <= k < |parts|
    ensures Offset(parts, separator, k) == |Join(parts[..k], separator)| + |separator|
  {
    JoinLength(parts[..k], separator);
  }

  /** Part k of a joined fragment sits at Offset(k); the last part ends the fragment. */
  lemma JoinPart(parts: seq<string>, separator: string, k: nat)
    requires k < |parts|
    ensures Offset(parts, separator, k) + |parts[k]| <= |Join(parts, separator)|
    ensures Join(parts, separator)[Offset(parts, separator, k)..Offset(parts, separator, k) + |parts[k]|] == parts[k]
    ensures k + 1 == |parts| ==> Offset(parts, separator, k) + |parts[k]| == |Join(parts, separator)|
  {
    var joined := Join(parts, separator);
    var upto := Join(parts[..k + 1], separator);
    JoinPrefix(parts, separator, k + 1);
    TotalLengthStep(parts, k);
    JoinLength(parts[..k + 1], separator);
    assert parts[..k + 1][..k] == parts[..k];
    assert Offset(parts, separator, k) + |parts[k]| == |upto|;
    if k == 0 {
      assert parts[..0] == [];
      assert upto == parts[0];
    } else {
      JoinStep(parts, separator, k);
      OffsetAfterPrefix(parts, separator, k);
    }
    assert joined[..|upto|] == upto;
    if k + 1 == |parts| {
      assert parts[..k + 1] == parts;
    }
  }

  /** Between parts k and k + 1 stands exactly one separator, and nothing else. */
  lemma JoinSeparator(parts: seq<string>, separator: string, k: nat)
    requires k + 1 < |parts|
    ensures Offset(parts, separator, k + 1) == Offset(parts, separator, k) + |parts[k]| + |separator|
    ensures Offset(parts, separator, k + 1) <= |Join(parts, separator)|
    ensures Join(parts, separator)[Offset(parts, separator, k) + |parts[k]|..Offset(parts, separator, k + 1)] == separator
  {
    var joined := Join(parts, separator);
    var upto := Join(parts[..k + 1], separator);
    var upto2 := Join(parts[..k + 2], separator);
    TotalLengthStep(parts, k);
    JoinLength(parts[..k + 1], separator);
    assert parts[..k + 1][..k] == parts[..k];
    assert Offset(parts, separator, k) + |parts[k]| == |upto|;
    JoinPrefix(parts, separator, k + 2);
    JoinStep(parts, separator, k + 1);
    OffsetAfterPrefix(parts, separator, k + 1);
    SeparatorInside(joined, upto, separator, parts[k + 1]);
  }

  /** A separator that follows a prefix of a string sits right after that prefix. */
  lemma SeparatorInside(joined: string, upto: string, separator: string, next: string)
    requires upto + separator + next <= joined
    ensures |upto| + |separator| <= |joined|
    ensures joined[|upto|..|upto| + |separator|] == separator
  {
    var whole := upto + separator + next;
    assert joined[..|whole|] == whole;
    assert whole[|upto|..|upto| + |separator|] == separator;
  }

  /** n entries give n - 1 separators: the rendered length in closed form. */
  lemma QuerySetLength(entries: seq<Entry>, delimiter: string)
    requires |entries| >= 1
    ensures |Join(RenderAll(entries), Separator(delimiter))|
            == TotalLength(RenderAll(entries)) + (|entries| - 1) * (|delimiter| + 2)
  {
    var parts := RenderAll(entries);
    var separator := Separator(delimiter);
    var gaps, width := |entries| - 1, |delimiter| + 2;
    assert |separator| == width;
    assert |parts| - 1 == gaps;
    JoinLength(parts, separator);
    assert (|parts| - 1) * |separator| == gaps * width;
  }

  /** A null value is written unquoted, as the word null. */
  lemma NullRendersUnquoted(column: string)
    ensures Render(Entry(column, SqlNull)) == column + " = null"
  {
  }

  /**
   * Any other value is quoted verbatim: a text such as CURRENT_TIMESTAMP or
   * "$col:current_login" becomes a quoted string literal, and a quote inside
   * the text is not escaped.
   */
  lemma {:induction false} PlainRendersQuotedVerbatim(column: string, text: string)
    ensures var r := Render(Entry(column, Plain(text)));
            && |r| == |column| + |text| + 5
            && r[..|column|] == column
            && r[|column|..|column| + 4] == " = '"
            && r[|column| + 4..|column| + 4 + |text|] == text
            && r[|r| - 1] == '\''
  {
    var r := Render(Entry(column, Plain(text)));
    assert r == column + " = '" + text + "'";
  }

  /** No quote character: the quotes the builder adds then delimit the value exactly. */
  predicate QuoteFree(text: string) {
    forall i :: 0 <= i < |text| ==> text[i] != '\''
  }

  /** A string literal as the database reads it: its text, and how many characters it spans. */
  datatype Lexeme = Lexeme(text: string, length: nat)

  /**
   * The rest of a string literal after its opening quote, read as standard
   * SQL reads it: a doubled quote stands for one quote, and the first single
   * quote closes the literal. None when the literal never closes.
   */
  function LiteralBody(s: string): (r: Option<Lexeme>)
    ensures r.Some? ==> 1 <= r.value.length <= |s| && s[r.value.length - 1] == '\''
    decreases |s|
  {
    if s == [] then None
    else if s[0] != '\'' then
      match LiteralBody(s[1..])
      case None => None
      case Some(rest) => Some(Lexeme([s[0]] + rest.text, rest.length + 1))
    else if |s| >= 2 && s[1] == '\'' then
      match LiteralBody(s[2..])
      case None => None
      case Some(rest) => Some(Lexeme("'" + rest.text, rest.length + 2))
    else Some(Lexeme("", 1))
  }

  /** The string literal that starts s, if s starts with a quote and the literal closes. */
  function ReadLiteral(s: string): (r: Option<Lexeme>)
    ensures r.Some? ==> 2 <= r.value.length <= |s| && s[0] == '\'' && s[r.value.length - 1] == '\''
  {
    if s == [] || s[0] != '\'' then None
    else
      match LiteralBody(s[1..])
      case None => None
      case Some(body) => Some(Lexeme(body.text, body.length + 1))
  }

  /** A quote-free body followed by a lone closing quote is read back whole. */
  lemma {:induction false} QuoteFreeBody(text: string, rest: string)
    requires QuoteFree(text)
    requires rest == [] || rest[0] != '\''
    ensures LiteralBody(text + "'" + rest) == Some(Lexeme(text, |text| + 1))
    decreases |text|
  {
    var s := text + "'" + rest;
    if text == [] {
      assert s == "'" + rest;
    } else {
      assert s[1..] == text[1..] + "'" + rest;
      QuoteFreeBody(text[1..], rest);
      assert [text[0]] + text[1..] == text;
    }
  }

  /**
   * The builder's quoting is exact for a quote-free value: the database reads
   * back the value itself, and the literal ends at the builder's closing
   * quote, whatever follows (a delimiter, or the end of the clause).
   */
  lemma QuoteFreeLiteralReadsBack(text: string, rest: string)
    requires QuoteFree(text)
    requires rest == [] || rest[0] != '\''
    ensures ReadLiteral("'" + text + "'" + rest) == Some(Lexeme(text, |text| + 2))
  {
    assert ("'" + text + "'" + rest)[1..] == text + "'" + rest;
    QuoteFreeBody(text, rest);
  }

  /**
   * As written, a quote inside a value ends the literal early: the database
   * reads only the text before the quote, and what follows the quote is read
   * as SQL.
   */
  lemma UnescapedQuoteEndsLiteral(before: string, after: string, rest: string)
    requires QuoteFree(before)
    requires after != [] && after[0] != '\''
    ensures var value := before + "'" + after;
            && ReadLiteral("'" + value + "'" + rest) == Some(Lexeme(before, |before| + 2))
            && ReadLiteral("'" + value + "'" + rest).value.text != value
  {
    var value := before + "'" + after;
    assert "'" + value + "'" + rest == "'" + before + "'" + (after + "'" + rest);
    QuoteFreeLiteralReadsBack(before, after + "'" + rest);
    assert |value| > |before|;
  }

  /**
   * As written, one assignment whose value carries a quote renders as the
   * very text of two assignments: a crafted first value writes a second
   * column of the attacker's choosing.
   */
  lemma InjectedValueRendersAsTwoAssignments(column: string, value: string, other: string, injected: string)
    ensures Join(RenderAll([Entry(column, Plain(value + "' " + SET_DELIMITER + " " + other + " = '" + injected))]), Separator(SET_DELIMITER))
            == Join(RenderAll([Entry(column, Plain(value)), Entry(other, Plain(injected))]), Separator(SET_DELIMITER))
  {
    var first, second := Render(Entry(column, Plain(value))), Render(Entry(other, Plain(injected)));
    var two := RenderAll([Entry(column, Plain(value)), Entry(other, Plain(injected))]);
    assert two == [first, second];
    JoinPair(first, second, Separator(SET_DELIMITER));
    var one := RenderAll([Entry(column, Plain(value + "' " + SET_DELIMITER + " " + other + " = '" + injected))]);
    assert one == [Render(Entry(column, Plain(value + "' " + SET_DELIMITER + " " + other + " = '" + injected)))];
  }

  /** Two parts are joined by exactly one separator. */
  lemma JoinPair(first: string, second: string, separator: string)
    ensures Join([first, second], separator) == first + separator + second
  {
    assert [first, second][..1] == [first];
  }

  /**
   * As written, a condition value ending in `' OR '1'='1` appends a disjunct
   * that every row satisfies to the WHERE clause.
   */
  lemma AlwaysTrueDisjunctRendered(column: string, value: string)
    ensures Render(Entry(column, Plain(value + "' OR '1'='1"))) == Render(Entry(column, Plain(value))) + " OR '1'='1'"
  {
  }

  /** The intended quoting: every quote in the value doubled, as standard SQL escapes it. */
  function Escape(text: string): (escaped: string)
    ensures |escaped| >= |text|
    decreases |text|
  {
    if text == [] then ""
    else if text[0] == '\'' then "''" + Escape(text[1..])
    else [text[0]] + Escape(text[1..])
  }

  /** One assignment as the builder should render it: the value escaped inside its quotes. */
  function RenderEscaped(e: Entry): string {
    match e.value
    case SqlNull => e.column + " = null"
    case Timestamp(t) => e.column + " = '" + FormatTimestamp(t) + "'"
    case Plain(text) => e.column + " = '" + Escape(text) + "'"
  }

  /** A character other than a quote is part of the literal's text. */
  lemma BodyPrefixChar(c: char, s: string, lexeme: Lexeme)
    requires c != '\'' && LiteralBody(s) == Some(lexeme)
    ensures LiteralBody([c] + s) == Some(Lexeme([c] + lexeme.text, lexeme.length + 1))
  {
    var t := [c] + s;
    assert t != [] && t[0] == c && t[1..] == s;
  }

  /** A doubled quote stands for one quote of the literal's text. */
  lemma BodyPrefixQuote(s: string, lexeme: Lexeme)
    requires LiteralBody(s) == Some(lexeme)
    ensures LiteralBody("''" + s) == Some(Lexeme("'" + lexeme.text, lexeme.length + 2))
  {
    var t := "''" + s;
    assert |t| >= 2 && t[0] == '\'' && t[1] == '\'' && t[2..] == s;
  }

  /** Escaping one leading character: a quote doubles, anything else stays. */
  lemma EscapeHead(text: string)
    requires text != []
    ensures Escape(text) == (if text[0] == '\'' then "''" else [text[0]]) + Escape(text[1..])
  {
  }

  /** One step of reading an escaped body: the escaped first character, then the rest as already read. */
  lemma EscapedBodyStep(text: string, rest: string)
    requires text != []
    requires LiteralBody(Escape(text[1..]) + "'" + rest) == Some(Lexeme(text[1..], |Escape(text[1..])| + 1))
    ensures LiteralBody(Escape(text) + "'" + rest) == Some(Lexeme(text, |Escape(text)| + 1))
  {
    EscapeHead(text);
    if text[0] == '\'' {
      EscapedQuoteStep(text, rest, Escape(text[1..]), Escape(text));
    } else {
      EscapedCharStep(text, rest, Escape(text[1..]), Escape(text));
    }
  }

  /** A leading quote, escaped as two (escaped), is read back as one; escapedTail is the rest's escaping. */
  lemma EscapedQuoteStep(text: string, rest: string, escapedTail: string, escaped: string)
    requires text != [] && text[0] == '\'' && escaped == "''" + escapedTail
    requires LiteralBody(escapedTail + "'" + rest) == Some(Lexeme(text[1..], |escapedTail| + 1))
    ensures LiteralBody(escaped + "'" + rest) == Some(Lexeme(text, |escaped| + 1))
  {
    PrefixRegroup("''", escapedTail, escaped, rest);
    BodyPrefixQuote(escapedTail + "'" + rest, Lexeme(text[1..], |escapedTail| + 1));
    HeadTail(text);
  }

  /** A leading character other than a quote is kept by escaping and read back as itself. */
  lemma EscapedCharStep(text: string, rest: string, escapedTail: string, escaped: string)
    requires text != [] && text[0] != '\'' && escaped == [text[0]] + escapedTail
    requires LiteralBody(escapedTail + "'" + rest) == Some(Lexeme(text[1..], |escapedTail| + 1))
    ensures LiteralBody(escaped + "'" + rest) == Some(Lexeme(text, |escaped| + 1))
  {
    PrefixRegroup([text[0]], escapedTail, escaped, rest);
    BodyPrefixChar(text[0], escapedTail + "'" + rest, Lexeme(text[1..], |escapedTail| + 1));
    HeadTail(text);
  }

  /** Regrouping a concatenation: the escaped head stays in front of the closing quote and what follows. */
  lemma PrefixRegroup(head: string, middle: string, whole: string, rest: string)
    requires whole == head + middle
    ensures whole + "'" + rest == head + (middle + "'" + rest)
  {
  }

  /** A non-empty string is its first character followed by the rest. */
  lemma HeadTail(text: string)
    requires text != []
    ensures [text[0]] + text[1..] == text
  {
  }

  /** An escaped body followed by a lone closing quote is read back as the original text. */
  lemma {:induction false} EscapedBody(text: string, rest: string)
    requires rest == [] || rest[0] != '\''
    ensures LiteralBody(Escape(text) + "'" + rest) == Some(Lexeme(text, |Escape(text)| + 1))
    decreases |text|
  {
    if text == [] {
      assert Escape(text) + "'" + rest == "'" + rest;
    } else {
      EscapedBody(text[1..], rest);
      EscapedBodyStep(text, rest);
    }
  }

  /**
   * With escaping, every value is read back as itself, quotes included, and
   * its literal ends exactly at the closing quote the builder adds.
   */
  lemma EscapedLiteralReadsBack(text: string, rest: string)
    requires rest == [] || rest[0] != '\''
    ensures ReadLiteral("'" + Escape(text) + "'" + rest) == Some(Lexeme(text, |Escape(text)| + 2))
  {
    assert ("'" + Escape(text) + "'" + rest)[1..] == Escape(text) + "'" + rest;
    EscapedBody(text, rest);
  }

  /** Escaping leaves a quote-free value as it is, so both renderings agree wherever the values carry no quote. */
  lemma {:induction false} EscapeQuoteFree(text: string)
    requires QuoteFree(text)
    ensures Escape(text) == text
    decreases |text|
  {
    if text != [] {
      EscapeQuoteFree(text[1..]);
      assert [text[0]] + text[1..] == text;
    }
  }

  lemma ZerosValue(k: nat)
    ensures DigitsValue(Zeros(k)) == 0
  {
    if k > 0 {
      assert Zeros(k)[..k - 1] == Zeros(k - 1);
    }
  }

  /** Leading zeros do not change the value a digit string denotes. */
  lemma {:induction false} LeadingZerosValue(z: string, s: string)
    requires forall i :: 0 <= i < |z| ==> z[i] == '0'
    ensures DigitsValue(z + s) == DigitsValue(s)
    decreases |s|
  {
    if s == [] {
      assert z + s == z;
      AllZerosValue(z);
    } else {
      assert (z + s)[..|z + s| - 1] == z + s[..|s| - 1];
      LeadingZerosValue(z, s[..|s| - 1]);
    }
  }

  lemma {:induction false} AllZerosValue(z: string)
    requires forall i :: 0 <= i < |z| ==> z[i] == '0'
    ensures DigitsValue(z) == 0
    decreases |z|
  {
    if z != [] {
      AllZerosValue(z[..|z| - 1]);
    }
  }

  lemma ZerosAreZeros(k: nat)
    ensures forall i :: 0 <= i < k ==> Zeros(k)[i] == '0'
  {
  }

  lemma {:induction false} DigitsLength(n: nat, k: nat)
    requires k >= 1 && n < Pow10(k)
    ensures |Digits(n)| <= k
    decreases k
  {
    if n >= 10 {
      DigitsLength(n / 10, k - 1);
    }
  }

  /** A padded field has exactly its width and reads back as its value. */
  lemma PadRoundTrip(n: nat, width: nat)
    requires width >= 1 && n < Pow10(width)
    ensures |Pad(n, width)| == width
    ensures DigitsValue(Pad(n, width)) == n
  {
    DigitsLength(n, width);
    DigitsRoundTrip(n);
    var d := Digits(n);
    if |d| < width {
      ZerosAreZeros(width - |d|);
      LeadingZerosValue(Zeros(width - |d|), d);
    }
  }

  /** Where each field of the timestamp layout lands. */
  lemma {:induction false} LayoutSlices(y: string, mo: string, d: string, h: string, mi: string, se: string, ms: string)
    requires |y| == 4 && |mo| == 2 && |d| == 2 && |h| == 2 && |mi| == 2 && |se| == 2 && |ms| == 3
    ensures var s := y + "-" + mo + "-" + d + " " + h + ":" + mi + ":" + se + "." + ms;
            && |s| == 23
            && s[4] == '-' && s[7] == '-' && s[10] == ' ' && s[13] == ':' && s[16] == ':' && s[19] == '.'
            && s[0..4] == y && s[5..7] == mo && s[8..10] == d && s[11..13] == h
            && s[14..16] == mi && s[17..19] == se && s[20..23] == ms
  {
    var a := y + "-";
    var b := a + mo;
    var c := b + "-" + d;
    var e := c + " " + h;
    var f := e + ":" + mi;
    var g := f + ":" + se;
    var s := g + "." + ms;
    assert b[5..7] == mo;
    assert c[8..10] == d && c[..7] == b;
    assert e[11..13] == h && e[..10] == c;
    assert f[14..16] == mi && f[..13] == e;
    assert g[17..19] == se && g[..16] == f;
    assert s[20..23] == ms && s[..19] == g;
    assert s[..7] == b;
  }

  /**
   * For a valid date-time with a four-digit year, the timestamp text has the
   * fixed layout yyyy-MM-dd HH:mm:ss.SSS (23 characters) and each field reads
   * back as the date-time's own value (milliseconds for SSS).
   */
  lemma TimestampLayout(t: LocalDateTime)
    requires 1 <= t.year <= 9999
    requires t.month < 100 && t.day < 100 && t.hour < 100 && t.minute < 100 && t.second < 100
    requires t.nano < 1000000000
    ensures var s := FormatTimestamp(t);
            && |s| == 23
            && s[4] == '-' && s[7] == '-' && s[10] == ' ' && s[13] == ':' && s[16] == ':' && s[19] == '.'
            && DigitsValue(s[0..4]) == t.year
            && DigitsValue(s[5..7]) == t.month
            && DigitsValue(s[8..10]) == t.day
            && DigitsValue(s[11..13]) == t.hour
            && DigitsValue(s[14..16]) == t.minute
            && DigitsValue(s[17..19]) == t.second
            && DigitsValue(s[20..23]) == t.nano / 1000000
  {
    PadRoundTrip(t.year, 4);
    PadRoundTrip(t.month, 2);
    PadRoundTrip(t.day, 2);
    PadRoundTrip(t.hour, 2);
    PadRoundTrip(t.minute, 2);
    PadRoundTrip(t.second, 2);
    PadRoundTrip(t.nano / 1000000, 3);
    assert YearText(t.year) == Pad(t.year, 4);
    LayoutSlices(Pad(t.year, 4), Pad(t.month, 2), Pad(t.day, 2), Pad(t.hour, 2),
                 Pad(t.minute, 2), Pad(t.second, 2), Pad(t.nano / 1000000, 3));
  }
}
