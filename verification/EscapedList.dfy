/** `escaped_list_separator`: quoted, escaped, separated fields (CSV and its kin). */
module EscapedList {

  import opened Options

  /** The two exceptions of type `escaped_list_error`. */
  datatype Error = CannotEndWithEscape | UnknownEscapeSequence

  /** The sets of escape, separator and quote characters. */
  datatype ListRules = ListRules(escape: string, separator: string, quote: string) {
    predicate Special(ch: char) {
      ch in escape || ch in separator || ch in quote
    }

    /** What `do_escape` makes of the character after an escape. */
    function Unescape(ch: char): (r: Option<char>) {
      if ch == 'n' then Some('\n') else if Special(ch) then Some(ch) else None
    }
  }

  const DEFAULT_RULES := ListRules("\\", ",", "\"")

  // ----- the reference: decoding a whole text -----

  /** The fields delivered, and the exception that ends the run, if any. Without an
      exception there is at least one field. */
  datatype Decoded = Decoded(fields: seq<string>, error: Option<Error>)

  /** Text in front of the first field; lost if that field is never completed. */
  function Prefix(t: string, d: Decoded): (p: Decoded)
    ensures p.error == d.error && |p.fields| == |d.fields|
  {
    if d.fields == [] then d else d.(fields := [t + d.fields[0]] + d.fields[1..])
  }

  function Decode(s: string, r: ListRules, inQuote: bool): (d: Decoded)
    ensures d.error == None ==> d.fields != []
    decreases |s|
  {
    if s == [] then Decoded([""], None)
    else if s[0] in r.escape then
      if |s| == 1 then Decoded([], Some(CannotEndWithEscape))
      else match r.Unescape(s[1])
        case None => Decoded([], Some(UnknownEscapeSequence))
        case Some(ch) => Prefix([ch], Decode(s[2..], r, inQuote))
    else if s[0] in r.separator && !inQuote then
      var rest := Decode(s[1..], r, false);
      Decoded([""] + rest.fields, rest.error)
    else if s[0] in r.quote && s[0] !in r.separator then
      Decode(s[1..], r, !inQuote)
    else
      Prefix([s[0]], Decode(s[1..], r, inQuote))
  }

  lemma PrefixPrefix(a: string, b: string, d: Decoded)
    ensures Prefix(a, Prefix(b, d)) == Prefix(a + b, d)
  {
    if d.fields != [] {
      assert a + (b + d.fields[0]) == (a + b) + d.fields[0];
    }
  }

  lemma PrefixNothing(d: Decoded)
    ensures Prefix("", d) == d
  {
    if d.fields != [] {
      assert "" + d.fields[0] == d.fields[0];
      assert d.fields == [d.fields[0]] + d.fields[1..];
    }
  }

  /** The fields still due when `rest` is unread; `last` is set by a separator. */
  function Due(rest: string, r: ListRules, last: bool): Decoded {
    if rest == [] then Decoded(if last then [""] else [], None) else Decode(rest, r, false)
  }

  function First(tok: string, d: Decoded): Decoded {
    Decoded([tok] + d.fields, d.error)
  }

  // ----- the separator -----

  datatype Outcome = Token | End | Thrown(error: Error)

  /** The characters that may follow an escape. */
  predicate Escapable(ch: char, r: ListRules) {
    ch == 'n' || ch in r.escape || ch in r.separator || ch in r.quote
  }

  /** Where an exception leaves the position: just behind the escape character, at the
      end of the text or at the character that cannot be escaped. */
  predicate BadEscapeBefore(input: string, next: nat, r: ListRules, e: Error) {
    && 0 < next <= |input| && input[next - 1] in r.escape
    && match e
       case CannotEndWithEscape => next == |input|
       case UnknownEscapeSequence => next < |input| && !Escapable(input[next], r)
  }

  lemma AtSeparator(input: string, at: nat, r: ListRules, tok: string)
    requires at < |input| && input[at] !in r.escape && input[at] in r.separator
    ensures Prefix(tok, Decode(input[at..], r, false)) == First(tok, Due(input[at + 1..], r, true))
  {
    assert input[at..][1..] == input[at + 1..];
    var rest := Decode(input[at + 1..], r, false);
    assert tok + "" == tok;
    assert ([""] + rest.fields)[1..] == rest.fields;
  }

  lemma AtPlain(input: string, at: nat, r: ListRules, tok: string, inQuote: bool)
    requires at < |input| && input[at] !in r.escape
    requires if input[at] in r.separator then inQuote else input[at] !in r.quote
    ensures Prefix(tok, Decode(input[at..], r, inQuote)) ==
            Prefix(tok + [input[at]], Decode(input[at + 1..], r, inQuote))
  {
    assert input[at..][1..] == input[at + 1..];
    PrefixPrefix(tok, [input[at]], Decode(input[at + 1..], r, inQuote));
  }

  lemma AtQuote(input: string, at: nat, r: ListRules, inQuote: bool)
    requires at < |input| && input[at] !in r.escape && input[at] !in r.separator && input[at] in r.quote
    ensures Decode(input[at..], r, inQuote) == Decode(input[at + 1..], r, !inQuote)
  {
    assert input[at..][1..] == input[at + 1..];
  }

  lemma AtEnd(input: string, r: ListRules, tok: string, inQuote: bool)
    ensures Prefix(tok, Decode(input[|input|..], r, inQuote)) == First(tok, Due(input[|input|..], r, false))
  {
    assert tok + "" == tok;
    assert [tok] + [""][1..] == [tok];
  }

  class EscapedListSeparator {
    const rules: ListRules
    var last: bool  // a separator was just consumed, so one more field follows

    constructor (rules: ListRules)
      ensures this.rules == rules && !last
    {
      this.rules := rules;
      last := false;
    }

    /** A separator is copied by value, its flag included. */
    constructor Copy(other: EscapedListSeparator)
      ensures rules == other.rules && last == other.last
    {
      rules := other.rules;
      last := other.last;
    }

    method Reset()
      modifies this
      ensures !last
    {
      last := false;
    }

    /** `do_escape`: the character that the sequence at `at` stands for, or the exception. */
    method DoEscape(input: string, at: nat, ghost tok: string, ghost inQuote: bool)
      returns (thrown: Option<Error>, ch: char)
      requires at < |input| && input[at] in rules.escape
      ensures var d := Prefix(tok, Decode(input[at..], rules, inQuote));
              match thrown
              case Some(e) => d == Decoded([], Some(e)) && BadEscapeBefore(input, at + 1, rules, e)
              case None => at + 1 < |input| && d == Prefix(tok + [ch], Decode(input[at + 2..], rules, inQuote))
    {
      ch := '\n';
      ghost var s := input[at..];
      if at + 1 == |input| {
        return Some(CannotEndWithEscape), ch;
      }
      assert s[1] == input[at + 1] && s[2..] == input[at + 2..];
      var e := input[at + 1];
      if e == 'n' {
        ch := '\n';
      } else if e in rules.quote {
        ch := e;
      } else if e in rules.separator {
        ch := e;
      } else if e in rules.escape {
        ch := e;
      } else {
        return Some(UnknownEscapeSequence), ch;
      }
      PrefixPrefix(tok, [ch], Decode(input[at + 2..], rules, inQuote));
      thrown := None;
    }

    /** One call on the unread part `input[next..]`. */
    method Next(input: string, next: nat) returns (outcome: Outcome, next': nat, tok: string)
      requires next <= |input|
      modifies this
      ensures next <= next' <= |input|
      ensures var due := Due(input[next..], rules, old(last));
              match outcome
              case Token => due == First(tok, Due(input[next'..], rules, last))
              case End => due == Decoded([], None) && next' == |input| && !last
              case Thrown(e) => due == Decoded([], Some(e)) && BadEscapeBefore(input, next', rules, e)
      ensures outcome == Token ==> 2 * (|input| - next') + (if last then 1 else 0) <
                                   2 * (|input| - next) + (if old(last) then 1 else 0)
    {
      hide Decode, Prefix;
      next', tok := next, "";
      if next == |input| {
        if last {
          last := false;
          return Token, next', tok;
        } else {
          return End, next', tok;
        }
      }
      last := false;
      var inQuote := false;
      PrefixNothing(Decode(input[next..], rules, false));
      while next' < |input|
        invariant next <= next' <= |input| && !last
        invariant Decode(input[next..], rules, false) == Prefix(tok, Decode(input[next'..], rules, inQuote))
      {
        var c := input[next'];
        if c in rules.escape {
          var ended, ch := DoEscape(input, next', tok, inQuote);
          match ended {
            case Some(e) =>
              return Thrown(e), next' + 1, tok;
            case None =>
          }
          tok := tok + [ch];
          next' := next' + 1;
        } else if c in rules.separator {
          if !inQuote {
            AtSeparator(input, next', rules, tok);
            next' := next' + 1;
            last := true;
            return Token, next', tok;
          } else {
            AtPlain(input, next', rules, tok, inQuote);
            tok := tok + [c];
          }
        } else if c in rules.quote {
          AtQuote(input, next', rules, inQuote);
          inQuote := !inQuote;
        } else {
          AtPlain(input, next', rules, tok, inQuote);
          tok := tok + [c];
        }
        next' := next' + 1;
      }
      AtEnd(input, rules, tok, inQuote);
      outcome := Token;
    }
  }

  // ----- which texts decode -----

  /** Every escape character is followed by one it may escape. */
  predicate WellEscaped(s: string, r: ListRules) {
    if s == [] then true
    else if s[0] in r.escape then |s| > 1 && Escapable(s[1], r) && WellEscaped(s[2..], r)
    else WellEscaped(s[1..], r)
  }

  /** Quotes never cause an error, not even unbalanced ones: decoding fails exactly
      on a bad escape. */
  lemma {:induction false} DecodesIffWellEscaped(s: string, r: ListRules, inQuote: bool)
    ensures Decode(s, r, inQuote).error == None <==> WellEscaped(s, r)
    decreases |s|
  {
    if s == [] {
    } else if s[0] in r.escape {
      if |s| > 1 && Escapable(s[1], r) {
        DecodesIffWellEscaped(s[2..], r, inQuote);
      }
    } else if s[0] in r.separator && !inQuote {
      DecodesIffWellEscaped(s[1..], r, false);
    } else if s[0] in r.quote && s[0] !in r.separator {
      DecodesIffWellEscaped(s[1..], r, !inQuote);
    } else {
      DecodesIffWellEscaped(s[1..], r, inQuote);
    }
  }

  // ----- encoding, and the round trip -----

  /** The characters an encoder uses. Decoding tests for an escape first, then for a
      separator, then for a quote. */
  predicate Usable(r: ListRules, e: char, c: char, q: char) {
    && e in r.escape
    && c in r.separator && c !in r.escape
    && q in r.quote && q !in r.escape && q !in r.separator
  }

  /** What would otherwise be taken for syntax; separators need no escape inside quotes. */
  predicate NeedsEscape(ch: char, r: ListRules, quoted: bool) {
    ch in r.escape || ch in r.quote || (!quoted && ch in r.separator)
  }

  /** A field to encode: whether to put it in quotes, and whether to write its newlines
      as an escape and `n`. */
  datatype Field = Field(text: string, quoted: bool, named: bool)

  function EscapeOne(ch: char, r: ListRules, e: char, quoted: bool, named: bool): string {
    if named && ch == '\n' then [e, 'n']
    else if NeedsEscape(ch, r, quoted) then [e, ch]
    else [ch]
  }

  function Escape(f: string, r: ListRules, e: char, quoted: bool, named: bool): string {
    if f == "" then "" else EscapeOne(f[0], r, e, quoted, named) + Escape(f[1..], r, e, quoted, named)
  }

  function EncodeField(f: Field, r: ListRules, e: char, q: char): string {
    var body := Escape(f.text, r, e, f.quoted, f.named);
    if f.quoted then [q] + body + [q] else body
  }

  function Encode(fields: seq<Field>, r: ListRules, e: char, c: char, q: char): string
    requires |fields| > 0
  {
    var first := EncodeField(fields[0], r, e, q);
    if |fields| == 1 then first else first + ([c] + Encode(fields[1..], r, e, c, q))
  }

  function Texts(fields: seq<Field>): (t: seq<string>)
    ensures |t| == |fields|
  {
    if fields == [] then [] else [fields[0].text] + Texts(fields[1..])
  }

  lemma DecodePlain(ch: char, tail: string, r: ListRules, quoted: bool)
    requires !NeedsEscape(ch, r, quoted)
    ensures Decode([ch] + tail, r, quoted) == Prefix([ch], Decode(tail, r, quoted))
  {
    assert ([ch] + tail)[1..] == tail;
  }

  /** A special character behind an escape stands for itself, and `n` for a newline. */
  lemma DecodePair(e: char, ch: char, tail: string, r: ListRules, quoted: bool)
    requires e in r.escape
    ensures (ch in r.escape || ch in r.separator || ch in r.quote) && ch != 'n' ==>
              Decode([e, ch] + tail, r, quoted) == Prefix([ch], Decode(tail, r, quoted))
    ensures Decode([e, 'n'] + tail, r, quoted) == Prefix("\n", Decode(tail, r, quoted))
  {
    assert ([e, ch] + tail)[2..] == tail;
    assert ([e, 'n'] + tail)[2..] == tail;
  }

  lemma DecodeOne(ch: char, tail: string, r: ListRules, e: char, quoted: bool, named: bool)
    requires e in r.escape && !r.Special('n')
    ensures Decode(EscapeOne(ch, r, e, quoted, named) + tail, r, quoted) == Prefix([ch], Decode(tail, r, quoted))
  {
    hide Decode, Prefix;
    DecodePair(e, ch, tail, r, quoted);
    if !NeedsEscape(ch, r, quoted) {
      DecodePlain(ch, tail, r, quoted);
    }
    assert ['\n'] == "\n";
  }

  lemma {:induction false} DecodeEscaped(f: string, rest: string, r: ListRules, e: char, quoted: bool, named: bool)
    requires e in r.escape && !r.Special('n')
    ensures Decode(Escape(f, r, e, quoted, named) + rest, r, quoted) == Prefix(f, Decode(rest, r, quoted))
    decreases |f|
  {
    hide Decode, Prefix, EscapeOne;
    if f == "" {
      assert "" + rest == rest;
      PrefixNothing(Decode(rest, r, quoted));
    } else {
      var tail := Escape(f[1..], r, e, quoted, named) + rest;
      DecodeEscaped(f[1..], rest, r, e, quoted, named);
      assert Escape(f, r, e, quoted, named) + rest == EscapeOne(f[0], r, e, quoted, named) + tail;
      DecodeOne(f[0], tail, r, e, quoted, named);
      PrefixPrefix([f[0]], f[1..], Decode(rest, r, quoted));
      assert [f[0]] + f[1..] == f;
    }
  }

  lemma DecodeQuote(q: char, tail: string, r: ListRules, inQuote: bool)
    requires q in r.quote && q !in r.escape && q !in r.separator
    ensures Decode([q] + tail, r, inQuote) == Decode(tail, r, !inQuote)
  {
    assert ([q] + tail)[1..] == tail;
  }

  /** A field's encoding decodes to its text in front of whatever follows. */
  lemma DecodeField(f: Field, rest: string, r: ListRules, e: char, c: char, q: char)
    requires Usable(r, e, c, q) && !r.Special('n')
    ensures Decode(EncodeField(f, r, e, q) + rest, r, false) == Prefix(f.text, Decode(rest, r, false))
  {
    if f.quoted {
      var body := Escape(f.text, r, e, true, f.named);
      assert EncodeField(f, r, e, q) + rest == [q] + (body + ([q] + rest));
      DecodeQuote(q, body + ([q] + rest), r, false);
      DecodeEscaped(f.text, [q] + rest, r, e, true, f.named);
      DecodeQuote(q, rest, r, true);
    } else {
      DecodeEscaped(f.text, rest, r, e, false, f.named);
    }
  }

  lemma DecodeSeparator(c: char, tail: string, r: ListRules)
    requires c in r.separator && c !in r.escape
    ensures Decode([c] + tail, r, false) == First("", Decode(tail, r, false))
  {
    assert ([c] + tail)[1..] == tail;
  }

  lemma PrefixFirst(t: string, d: Decoded)
    ensures Prefix(t, First("", d)) == First(t, d)
  {
    assert t + "" == t;
    assert ([""] + d.fields)[1..] == d.fields;
  }

  /** Decoding undoes encoding, for any list of fields, each quoted or not and with its
      newlines written either way. */
  lemma {:induction false} DecodeEncoded(fields: seq<Field>, r: ListRules, e: char, c: char, q: char)
    requires |fields| > 0 && Usable(r, e, c, q) && !r.Special('n')
    ensures Decode(Encode(fields, r, e, c, q), r, false) == Decoded(Texts(fields), None)
    decreases |fields|
  {
    var f, code := fields[0], EncodeField(fields[0], r, e, q);
    if |fields| == 1 {
      DecodeField(f, "", r, e, c, q);
      assert code + "" == code;
      assert Prefix(f.text, Decoded([""], None)).fields == [f.text + ""] + [];
      assert f.text + "" == f.text;
      assert Texts(fields) == [f.text] + Texts([]);
    } else {
      var tail := Encode(fields[1..], r, e, c, q);
      DecodeEncoded(fields[1..], r, e, c, q);
      DecodeField(f, [c] + tail, r, e, c, q);
      DecodeSeparator(c, tail, r);
      PrefixFirst(f.text, Decode(tail, r, false));
    }
  }

  ghost predicate RoundTrips(r: ListRules, e: char, c: char, q: char) {
    forall fields: seq<Field> | |fields| > 0 ::
      Decode(Encode(fields, r, e, c, q), r, false) == Decoded(Texts(fields), None)
  }

  /** Every list of fields survives encoding and decoding exactly when `n` has no
      special role: an escaped `n` is always read as a newline. */
  lemma RoundTripCriterion(r: ListRules, e: char, c: char, q: char)
    requires Usable(r, e, c, q)
    ensures RoundTrips(r, e, c, q) <==> !r.Special('n')
  {
    if !r.Special('n') {
      forall fields: seq<Field> | |fields| > 0
        ensures Decode(Encode(fields, r, e, c, q), r, false) == Decoded(Texts(fields), None)
      {
        DecodeEncoded(fields, r, e, c, q);
      }
    } else {
      var fields := [Field("n", false, false)];
      var s := Encode(fields, r, e, c, q);
      assert s == [e, 'n'] by { assert Escape("n"[1..], r, e, false, false) == ""; }
      assert s[2..] == [];
      assert Decode([], r, false) == Decoded([""], None);
      assert Decode(s, r, false).fields[0][0] == '\n';
      assert Texts(fields)[0][0] == 'n';
    }
  }

  /** The one list whose encoding is the empty text. */
  lemma EncodesToNothing(fields: seq<Field>, r: ListRules, e: char, c: char, q: char)
    requires |fields| > 0
    ensures Encode(fields, r, e, c, q) == "" <==> |fields| == 1 && fields[0].text == "" && !fields[0].quoted
  {
    if |fields| == 1 {
      assert fields == [fields[0]];
    }
  }

  // ----- roles -----

  /** A text without special characters is its own only field. */
  lemma {:induction false} DecodeOrdinary(s: string, r: ListRules, inQuote: bool)
    requires forall ch :: ch in s ==> ch !in r.escape && ch !in r.separator && ch !in r.quote
    ensures Decode(s, r, inQuote) == Decoded([s], None)
    decreases |s|
  {
    if s != "" {
      DecodeOrdinary(s[1..], r, inQuote);
      assert [s[0]] + s[1..] == s;
    }
  }

  /** The characters of `s` that `keep` holds for. */
  function Filter(s: string, keep: char -> bool): (t: string)
    ensures forall ch :: ch in t <==> ch in s && keep(ch)
  {
    if s == "" then "" else (if keep(s[0]) then [s[0]] else []) + Filter(s[1..], keep)
  }

  /** The same characters, each in the one role it has: an escape before all, and a
      separator before a quote. */
  function OneRole(r: ListRules): (o: ListRules)
    ensures forall ch :: ch in o.escape <==> ch in r.escape
    ensures forall ch :: ch in o.separator <==> ch in r.separator && ch !in r.escape
    ensures forall ch :: ch in o.quote <==> ch in r.quote && ch !in r.separator && ch !in r.escape
  {
    ListRules(r.escape, Filter(r.separator, ch => ch !in r.escape),
              Filter(r.quote, ch => ch !in r.separator && ch !in r.escape))
  }

  /** Characters with several roles are taken in that order, in quotes and outside. */
  lemma {:induction false} RolesByPriority(s: string, r: ListRules, inQuote: bool)
    ensures Decode(s, r, inQuote) == Decode(s, OneRole(r), inQuote)
    decreases |s|
  {
    var o := OneRole(r);
    if s == "" {
    } else if s[0] in r.escape {
      if |s| > 1 {
        assert r.Special(s[1]) <==> o.Special(s[1]);
        RolesByPriority(s[2..], r, inQuote);
      }
    } else {
      RolesByPriority(s[1..], r, inQuote);
      RolesByPriority(s[1..], r, !inQuote);
      RolesByPriority(s[1..], r, false);
    }
  }

  /** By default only backslash, comma and double quote have a role. */
  lemma DefaultRoles(s: string)
    requires '\\' !in s && ',' !in s && '\"' !in s
    ensures Decode(s, DEFAULT_RULES, false) == Decoded([s], None)
  {
    DecodeOrdinary(s, DEFAULT_RULES, false);
  }

  /** The default roles satisfy the criterion. */
  lemma DefaultRulesRoundTrip()
    ensures RoundTrips(DEFAULT_RULES, '\\', ',', '\"')
  {
    RoundTripCriterion(DEFAULT_RULES, '\\', ',', '\"');
  }
}
