/**
 * The tuple-line parser (`VahsetAPI.parse_line`): a line such as
 *   ('123', 'dXNlckBleGFtcGxlLmNvbQ==', 'x', ..., '192.0.2.1'),
 * becomes a user id and a record holding the decoded email, the network
 * address and the encoded email as it appeared.
 *
 * The tokeniser is specified as a left fold of `Step` over the characters
 * (`Run`), and `ParseLine` walks the characters exactly as the source does.
 */
module LineParser {
  import opened Optional
  import opened PyStr
  import Base64

  /** `bytes.decode('utf-8', errors='ignore')`, which the model takes as given. */
  type Utf8Decoder = seq<Base64.byte> -> string

  /** What the store keeps per user id. */
  datatype UserRecord = UserRecord(email: string, ip: string, encoded: string)

  datatype Parsed = Parsed(userId: string, rec: UserRecord)

  /** The sentinel for an absent email or address. */
  const NA := "N/A"

  /** The tokeniser's variables: the fields so far, the current field and the quote state. */
  datatype Lexer = Lexer(values: seq<string>, current: string, inQuotes: bool, quoteChar: Option<char>)

  const Fresh := Lexer([], "", false, None)

  /** One character of the tokenising loop. */
  function Step(st: Lexer, c: char): Lexer {
    if IsQuote(c) && !st.inQuotes then
      Lexer(st.values, st.current + [c], true, Some(c))
    else if Some(c) == st.quoteChar && st.inQuotes then
      st.(current := st.current + [c], inQuotes := false)
    else if c == ',' && !st.inQuotes then
      st.(values := st.values + [Strip(st.current)], current := "")
    else
      st.(current := st.current + [c])
  }

  /** The tokeniser's state after reading all of `s`, starting from `st`. */
  function Run(st: Lexer, s: string): Lexer
    decreases |s|
  {
    if s == [] then st else Step(Run(st, s[..|s| - 1]), s[|s| - 1])
  }

  /** After the loop: a non-empty current field becomes the last value. */
  function Finish(st: Lexer): seq<string> {
    if st.current != [] then st.values + [Strip(st.current)] else st.values
  }

  /** The stripped fields of the text between the parentheses. */
  function Fields(body: string): seq<string> {
    Finish(Run(Fresh, body))
  }

  /** Empty, or "null" in any letter case. */
  predicate IsNull(s: string) {
    s == [] || Lower(s) == "null"
  }

  /** The email of a record: the sentinel, the decoded text, or the encoded text when decoding fails. */
  function EmailOf(encoded: string, utf8: Utf8Decoder): (email: string)
    ensures IsNull(encoded) ==> email == NA
    ensures !IsNull(encoded) && Base64.Decode(encoded).None? ==> email == encoded
    ensures !IsNull(encoded) && Base64.Decode(encoded).Some? ==> email == utf8(Base64.Decode(encoded).value)
  {
    if IsNull(encoded) then NA
    else match Base64.Decode(encoded)
      case None => encoded
      case Some(b) => utf8(b)
  }

  /** The network address of a record: the field as given, or the sentinel when it is empty or null. */
  function IpOf(raw: string): (r: string)
    ensures r == NA || r == raw
    ensures r == NA <==> IsNull(raw) || raw == NA
  {
    if IsNull(raw) then NA else raw
  }

  /** Field 0 is the id, field 1 the encoded email and field 8 the address; the rest are ignored. */
  function ToParsed(values: seq<string>, utf8: Utf8Decoder): (p: Parsed)
    requires |values| >= 9
    ensures p.userId == StripQuotes(values[0]) && p.rec.encoded == StripQuotes(values[1])
    ensures p.rec.email == EmailOf(p.rec.encoded, utf8)
    ensures p.rec.ip == NA <==> IsNull(StripQuotes(values[8])) || StripQuotes(values[8]) == NA
    ensures p.rec.ip != NA ==> p.rec.ip == StripQuotes(values[8])
  {
    var encoded := StripQuotes(values[1]);
    Parsed(StripQuotes(values[0]), UserRecord(EmailOf(encoded, utf8), IpOf(StripQuotes(values[8])), encoded))
  }

  /** Only fields 0, 1 and 8 reach the record: lines that agree on them parse alike. */
  lemma ToParsedUsesThreeFields(values: seq<string>, others: seq<string>, utf8: Utf8Decoder)
    requires |values| >= 9 && |others| >= 9
    requires values[0] == others[0] && values[1] == others[1] && values[8] == others[8]
    ensures ToParsed(values, utf8) == ToParsed(others, utf8)
  {
  }

  lemma Parenthesised(t: string)
    requires |t| >= 2 && t[0] == '(' && t[|t| - 1] == ')'
    ensures t == "(" + t[1..|t| - 1] + ")"
  {
  }

  /**
   * The text between the parentheses of a stripped line that starts with '('
   * and ends with ')' or with "),"; None for any other line.
   */
  function Body(line: string): (r: Option<string>)
    ensures r.Some? ==> Strip(line) == "(" + r.value + ")" || Strip(line) == "(" + r.value + "),"
    ensures r.None? <==> var s := Strip(line);
      s == [] || s[0] != '(' || (!EndsWith(s, ")") && !EndsWith(s, "),"))
  {
    var s := Strip(line);
    if s == [] || s[0] != '(' then None
    else if EndsWith(s, "),") then
      var t := s[..|s| - 1];
      assert s == t + [','];
      Parenthesised(t);
      Some(t[1..|t| - 1])
    else if EndsWith(s, ")") then
      Parenthesised(s);
      Some(s[1..|s| - 1])
    else None
  }

  /** `parse_line`: a record for a well-formed line of at least nine fields, None otherwise. */
  function Parse(line: string, utf8: Utf8Decoder): (r: Option<Parsed>)
    ensures r.Some? <==> Body(line).Some? && |Fields(Body(line).value)| >= 9
  {
    match Body(line)
    case None => None
    case Some(body) =>
      var values := Fields(body);
      if |values| < 9 then None else Some(ToParsed(values, utf8))
  }

  /** `parse_line` as the source writes it: unwrap the parentheses, tokenise, map the fields. */
  method ParseLine(line: string, utf8: Utf8Decoder) returns (r: Option<Parsed>)
    ensures r == Parse(line, utf8)
  {
    var body := Unwrap(line);
    if body.Some? {
      var values := Tokenize(body.value);
      if |values| >= 9 {
        return Some(ToParsed(values, utf8));
      }
    }
    return None;
  }

  /** The first half of `parse_line`: strip the line, drop a trailing comma, take off the parentheses. */
  method Unwrap(line: string) returns (body: Option<string>)
    ensures body == Body(line)
  {
    var s := Strip(line);
    if s == [] || s[0] != '(' {
      return None;
    }
    ghost var stripped := s;
    if EndsWith(s, "),") {
      s := s[..|s| - 1];
      assert stripped == s + [','];
    }
    if s[0] == '(' && s[|s| - 1] == ')' {
      Parenthesised(s);
      return Some(s[1..|s| - 1]);
    }
    return None;
  }

  /** The tokenising loop of `parse_line`: one pass over the characters, tracking the open quote. */
  method Tokenize(body: string) returns (values: seq<string>)
    ensures values == Fields(body)
  {
    values := [];
    var current := "";
    var inQuotes := false;
    var quoteChar: Option<char> := None;
    for i := 0 to |body|
      invariant Lexer(values, current, inQuotes, quoteChar) == Run(Fresh, body[..i])
    {
      var c := body[i];
      assert body[..i + 1][..i] == body[..i];
      if IsQuote(c) && !inQuotes {
        inQuotes := true;
        quoteChar := Some(c);
        current := current + [c];
      } else if Some(c) == quoteChar && inQuotes {
        inQuotes := false;
        current := current + [c];
      } else if c == ',' && !inQuotes {
        values := values + [Strip(current)];
        current := "";
      } else {
        current := current + [c];
      }
    }
    assert body[..|body|] == body;
    if current != "" {
      values := values + [Strip(current)];
    }
  }

  // ---------------------------------------------------------------------------
  // Properties of the tokeniser

  /** Reading `a + b` is reading `a`, then `b`. */
  lemma {:induction false} RunAppend(st: Lexer, a: string, b: string)
    ensures Run(st, a + b) == Run(Run(st, a), b)
    decreases |b|
  {
    if b == [] {
      assert a + b == a;
    } else {
      assert (a + b)[..|a + b| - 1] == a + b[..|b| - 1];
      RunAppend(st, a, b[..|b| - 1]);
    }
  }

  /** Outside quotes, characters that are neither quotes nor commas extend the current field. */
  lemma {:induction false} RunPlain(st: Lexer, s: string)
    requires !st.inQuotes
    requires forall i | 0 <= i < |s| :: !IsQuote(s[i]) && s[i] != ','
    ensures Run(st, s) == st.(current := st.current + s)
    decreases |s|
  {
    if s != [] {
      RunPlain(st, s[..|s| - 1]);
      assert st.current + s[..|s| - 1] + [s[|s| - 1]] == st.current + s;
    }
  }

  /**
   * While a quote is open, every character other than the one that opened it,
   * commas and the other quote character included, goes into the current field.
   */
  lemma {:induction false} RunQuoted(st: Lexer, q: char, s: string)
    requires st.inQuotes && st.quoteChar == Some(q)
    requires q !in s
    ensures Run(st, s) == st.(current := st.current + s)
    decreases |s|
  {
    if s != [] {
      RunQuoted(st, q, s[..|s| - 1]);
      assert st.current + s[..|s| - 1] + [s[|s| - 1]] == st.current + s;
    }
  }

  /** Splitting text without quotes on every comma. */
  function StripEach(parts: seq<string>): (r: seq<string>)
    ensures |r| == |parts|
    ensures forall i | 0 <= i < |parts| :: r[i] == Strip(parts[i])
    decreases |parts|
  {
    if parts == [] then []
    else StripEach(parts[..|parts| - 1]) + [Strip(parts[|parts| - 1])]
  }

  lemma {:induction false} RunWithoutQuotes(s: string)
    requires forall i | 0 <= i < |s| :: !IsQuote(s[i])
    ensures var p := Split(s, ',');
      Run(Fresh, s) == Lexer(StripEach(p[..|p| - 1]), p[|p| - 1], false, None)
    decreases |s|
  {
    if s != [] {
      var s', c := s[..|s| - 1], s[|s| - 1];
      assert s' + [c] == s;
      RunWithoutQuotes(s');
      var p := Split(s', ',');
      var n := |p|;
      var st := Run(Fresh, s');
      assert st == Lexer(StripEach(p[..n - 1]), p[n - 1], false, None);
      assert Run(Fresh, s) == Step(st, c);
      assert !IsQuote(c);
      SplitSnoc(s', c, ',');
      if c == ',' {
        var p2 := p + [[]];
        assert Split(s, ',') == p2;
        assert p2[..|p2| - 1] == p && p2[|p2| - 1] == [];
        assert Step(st, c) == Lexer(StripEach(p[..n - 1]) + [Strip(p[n - 1])], [], false, None);
      } else {
        var p2 := p[..n - 1] + [p[n - 1] + [c]];
        assert Split(s, ',') == p2;
        assert p2[..|p2| - 1] == p[..n - 1] && p2[|p2| - 1] == p[n - 1] + [c];
        assert Step(st, c) == Lexer(StripEach(p[..n - 1]), p[n - 1] + [c], false, None);
      }
    }
  }

  /**
   * For text without quote characters the fields are the comma-separated
   * pieces, each stripped, except that an empty last piece is dropped.
   */
  lemma FieldsWithoutQuotes(s: string)
    requires forall i | 0 <= i < |s| :: !IsQuote(s[i])
    ensures var p := Split(s, ',');
      Fields(s) == StripEach(p[..|p| - 1]) + (if p[|p| - 1] == [] then [] else [Strip(p[|p| - 1])])
  {
    RunWithoutQuotes(s);
  }

  // ---------------------------------------------------------------------------
  // Lines written in the dump format parse back to their fields

  /** One quoted field as a dump writes it: optional whitespace, then text between two equal quotes. */
  datatype Field = Field(lead: string, quote: char, text: string)

  predicate WellFormed(f: Field) {
    && (forall i | 0 <= i < |f.lead| :: IsSpace(f.lead[i]))
    && IsQuote(f.quote)
    && f.quote !in f.text
  }

  function Render(f: Field): string {
    f.lead + [f.quote] + f.text + [f.quote]
  }

  /** The field as the tokeniser returns it: stripped of whitespace, quotes kept. */
  function Core(f: Field): string {
    [f.quote] + f.text + [f.quote]
  }

  function Renders(fs: seq<Field>): (r: seq<string>)
    ensures |r| == |fs|
    ensures forall i | 0 <= i < |fs| :: r[i] == Render(fs[i])
    decreases |fs|
  {
    if fs == [] then [] else [Render(fs[0])] + Renders(fs[1..])
  }

  function Cores(fs: seq<Field>): (r: seq<string>)
    ensures |r| == |fs|
    ensures forall i | 0 <= i < |fs| :: r[i] == Core(fs[i])
    decreases |fs|
  {
    if fs == [] then [] else [Core(fs[0])] + Cores(fs[1..])
  }

  /** The tuple text between the parentheses: the fields joined by commas. */
  function Tuple(fs: seq<Field>): string {
    Join(Renders(fs), ',')
  }

  lemma {:induction false} LStripPrefix(ws: string, t: string, drop: char -> bool)
    requires forall i | 0 <= i < |ws| :: drop(ws[i])
    requires t != [] && !drop(t[0])
    ensures LStrip(ws + t, drop) == t
    decreases |ws|
  {
    if ws == [] {
      assert ws + t == t;
    } else {
      var u := ws + t;
      assert u[0] == ws[0] && drop(u[0]);
      assert u[1..] == ws[1..] + t;
      assert LStrip(u, drop) == LStrip(u[1..], drop);
      LStripPrefix(ws[1..], t, drop);
    }
  }

  lemma StripRender(f: Field)
    requires WellFormed(f)
    ensures Strip(Render(f)) == Core(f)
  {
    assert Render(f) == f.lead + Core(f);
    LStripPrefix(f.lead, Core(f), IsSpace);
  }

  /** Reading one well-formed field from the start of a field. */
  lemma RunField(st: Lexer, f: Field)
    requires WellFormed(f) && st.current == [] && !st.inQuotes
    ensures Run(st, Render(f)) == Lexer(st.values, Render(f), false, Some(f.quote))
  {
    var q := f.quote;
    var openQ := f.lead + [q];
    RunPlain(st, f.lead);
    assert f.lead + [q] == openQ && openQ[..|openQ| - 1] == f.lead;
    var st1 := Run(st, openQ);
    assert st1 == Lexer(st.values, openQ, true, Some(q));
    RunAppend(st, openQ, f.text);
    RunQuoted(st1, q, f.text);
    var inner := openQ + f.text;
    assert Render(f) == inner + [q];
    assert (inner + [q])[..|inner|] == inner;
  }

  /** A field followed by its separating comma becomes one value. */
  lemma RunFieldComma(st: Lexer, f: Field)
    requires WellFormed(f) && st.current == [] && !st.inQuotes
    ensures Run(st, Render(f) + [',']) == Lexer(st.values + [Core(f)], "", false, Some(f.quote))
  {
    RunField(st, f);
    StripRender(f);
    var head := Render(f) + [','];
    assert head[..|head| - 1] == Render(f);
  }

  /** The last field is still open when the text ends, and becomes the last value. */
  lemma RunLastField(st: Lexer, f: Field)
    requires WellFormed(f) && st.current == [] && !st.inQuotes
    ensures Finish(Run(st, Render(f))) == st.values + [Core(f)]
  {
    RunField(st, f);
    StripRender(f);
  }

  lemma TupleSingle(fs: seq<Field>)
    requires |fs| == 1
    ensures Tuple(fs) == Render(fs[0])
  {
    assert Renders(fs) == [Render(fs[0])];
  }

  lemma TupleCons(fs: seq<Field>)
    requires |fs| >= 2
    ensures Tuple(fs) == Render(fs[0]) + [','] + Tuple(fs[1..])
  {
    assert Renders(fs)[1..] == Renders(fs[1..]);
  }

  /** Reading the first field and its comma, then the rest of the tuple. */
  lemma RunTupleCons(st: Lexer, fs: seq<Field>)
    requires |fs| >= 2 && WellFormed(fs[0])
    requires st.current == [] && !st.inQuotes
    ensures Run(st, Tuple(fs)) == Run(Lexer(st.values + [Core(fs[0])], "", false, Some(fs[0].quote)), Tuple(fs[1..]))
  {
    TupleCons(fs);
    RunFieldComma(st, fs[0]);
    RunAppend(st, Render(fs[0]) + [','], Tuple(fs[1..]));
  }

  /** The state after the first field and its comma. */
  function AfterFirst(st: Lexer, fs: seq<Field>): Lexer
    requires |fs| >= 1
  {
    Lexer(st.values + [Core(fs[0])], "", false, Some(fs[0].quote))
  }

  lemma FinishAfter(a: Lexer, b: Lexer, vs: seq<string>, x: string, rest: seq<string>)
    requires a == b && Finish(b) == (vs + [x]) + rest
    ensures Finish(a) == vs + ([x] + rest)
  {
  }

  lemma {:induction false} RunTuple(st: Lexer, fs: seq<Field>)
    requires |fs| >= 1 && forall i | 0 <= i < |fs| :: WellFormed(fs[i])
    requires st.current == [] && !st.inQuotes
    ensures Finish(Run(st, Tuple(fs))) == st.values + Cores(fs)
    decreases |fs|
  {
    if |fs| == 1 {
      TupleSingle(fs);
      RunLastField(st, fs[0]);
    } else {
      var next := AfterFirst(st, fs);
      RunTuple(next, fs[1..]);
      RunTupleCons(st, fs);
      FinishAfter(Run(st, Tuple(fs)), Run(next, Tuple(fs[1..])), st.values, Core(fs[0]), Cores(fs[1..]));
    }
  }

  /**
   * Round trip of the tokeniser: commas and the other quote character inside
   * a quoted field do not split it, and each field comes back stripped.
   */
  lemma FieldsOfTuple(fs: seq<Field>)
    requires |fs| >= 1 && forall i | 0 <= i < |fs| :: WellFormed(fs[i])
    ensures Fields(Tuple(fs)) == Cores(fs)
  {
    RunTuple(Fresh, fs);
    FieldsFromFresh(Tuple(fs), Cores(fs));
  }

  lemma FieldsFromFresh(body: string, vs: seq<string>)
    requires Finish(Run(Fresh, body)) == Fresh.values + vs
    ensures Fields(body) == vs
  {
    assert Fresh.values + vs == vs;
  }

  /** Text without a quote character at either end. */
  predicate Unquoted(t: string) {
    t == [] || (!IsQuote(t[0]) && !IsQuote(t[|t| - 1]))
  }

  lemma RStripQuote(t: string, q: char)
    requires IsQuote(q) && t != [] && !IsQuote(t[|t| - 1])
    ensures RStrip(t + [q], IsQuote) == t
  {
    var u := t + [q];
    assert u[..|u| - 1] == t;
    assert RStrip(u, IsQuote) == RStrip(t, IsQuote);
  }

  lemma StripQuotesCore(f: Field)
    requires WellFormed(f) && Unquoted(f.text)
    ensures StripQuotes(Core(f)) == f.text
  {
    var q := f.quote;
    if f.text == [] {
      assert LStrip([q, q], IsQuote) == LStrip([q], IsQuote) == LStrip([], IsQuote);
      assert Core(f) == [q, q];
    } else {
      LStripPrefix([q], f.text + [q], IsQuote);
      assert Core(f) == [q] + (f.text + [q]);
      RStripQuote(f.text, q);
    }
  }

  /** A dump line: the tuple in parentheses, with or without the trailing comma. */
  function DumpLine(fs: seq<Field>, trailingComma: bool): string {
    "(" + Tuple(fs) + (if trailingComma then ")," else ")")
  }

  /**
   * A line in the dump format parses exactly when it has at least nine fields,
   * into the id of field 0, the email decoded from field 1 and the address of
   * field 8, each without its quotes.
   */
  lemma ParseDumpLine(fs: seq<Field>, trailingComma: bool, utf8: Utf8Decoder)
    requires |fs| >= 1
    requires forall i | 0 <= i < |fs| :: WellFormed(fs[i]) && Unquoted(fs[i].text)
    ensures Parse(DumpLine(fs, trailingComma), utf8) ==
      if |fs| < 9 then None
      else Some(Parsed(fs[0].text, UserRecord(EmailOf(fs[1].text, utf8), IpOf(fs[8].text), fs[1].text)))
  {
    DumpBody(fs, trailingComma);
    FieldsOfTuple(fs);
    if |fs| >= 9 {
      StripQuotesCore(fs[0]);
      StripQuotesCore(fs[1]);
      StripQuotesCore(fs[8]);
    }
  }

  /** A text with no whitespace at either end is its own `strip()`. */
  lemma StripTrimmed(t: string)
    requires t != [] && !IsSpace(t[0]) && !IsSpace(t[|t| - 1])
    ensures Strip(t) == t
  {
    assert LStrip(t, IsSpace) == t;
  }

  /** The tuple is the body of its dump line. */
  lemma DumpBody(fs: seq<Field>, trailingComma: bool)
    ensures Body(DumpLine(fs, trailingComma)) == Some(Tuple(fs))
  {
    var line := DumpLine(fs, trailingComma);
    var t := Tuple(fs);
    if trailingComma {
      assert line == "(" + t + ")" + [','];
    } else {
      assert line == "(" + t + ")";
    }
    StripTrimmed(line);
  }

  // ---------------------------------------------------------------------------
  // The email field

  /** An email that the dump encoded with `b64encode` comes back decoded. */
  lemma EmailOfEncoded(b: seq<Base64.byte>, utf8: Utf8Decoder)
    requires b != [] && Lower(Base64.Encode(b)) != "null"
    ensures EmailOf(Base64.Encode(b), utf8) == utf8(b)
  {
    Base64.DecodeEncode(b);
  }

  /**
   * An email field that is not valid base64 is kept as it is: non-ASCII text,
   * or unpadded text whose count of alphabet characters is not a multiple of four.
   */
  lemma EmailOfUndecodable(encoded: string, utf8: Utf8Decoder)
    requires !IsNull(encoded)
    requires !Base64.IsAscii(encoded) || ('=' !in encoded && |Base64.AlphabetOnly(encoded)| % 4 != 0)
    ensures EmailOf(encoded, utf8) == encoded
  {
    if Base64.IsAscii(encoded) {
      Base64.DecodeUnpadded(encoded);
    }
  }
}
