/** `token_iterator`: the driver that turns one-call separators into a run. */
module TokenIteration {

  import opened Options
  import opened Splitting
  import opened CharSeparation
  import EL = EscapedList

  /** A tokenizer function: one of the two separators. */
  datatype Function = Chars(chars: CharSeparator) | List(list: EL.EscapedListSeparator)

  /** The value of one: what copying it copies. */
  datatype State = CharState(rules: Rules, done: bool) | ListState(listRules: EL.ListRules, last: bool)
  {
    /** The state `reset` leaves. */
    function AfterReset(): State {
      match this
      case CharState(r, d) => this
      case ListState(r, _) => ListState(r, false)
    }

    /** The state in which a run ends that has reached the end of a text. */
    function Finished(): State {
      match this
      case CharState(r, d) => CharState(r, d || r.keepEmpty)
      case ListState(r, _) => ListState(r, false)
    }

    /** A `char_separator` that keeps empty tokens has its flag set behind a field and
        clear behind a delimiter. */
    predicate Behind(tok: string) {
      match this
      case CharState(r, d) => r.keepEmpty ==> d == !IsDelimiter(tok, r)
      case ListState(_, _) => true
    }

    /** The tokens due on an unread text. */
    function Due(rest: string): EL.Decoded {
      match this
      case CharState(r, d) => EL.Decoded(CharSeparation.Due(rest, r, d), None)
      case ListState(r, l) => EL.Due(rest, r, l)
    }

    /** What decreases with every token. */
    function Left(input: string, next: nat): nat
      requires next <= |input|
    {
      match this
      case CharState(_, d) => CharSeparation.Left(input, next, d)
      case ListState(_, l) => 2 * (|input| - next) + (if l then 1 else 0)
    }
  }

  ghost function Target(f: Function): (o: object) {
    match f
    case Chars(c) => c
    case List(l) => l
  }

  ghost function StateOf(f: Function): (s: State)
    reads Target(f)
  {
    match f
    case Chars(c) => CharState(c.rules, c.outputDone)
    case List(l) => ListState(l.rules, l.last)
  }

  /** Copies a tokenizer function by value. */
  method CopyOf(f: Function) returns (g: Function)
    ensures fresh(Target(g)) && StateOf(g) == StateOf(f)
  {
    if f.Chars? {
      var copy := new CharSeparator.Copy(f.chars);
      g := Chars(copy);
    } else {
      var copy := new EL.EscapedListSeparator.Copy(f.list);
      g := List(copy);
    }
  }

  /** The outcome of a call that may throw. */
  function Run(thrown: Option<EL.Error>, d: EL.Decoded): EL.Decoded {
    if thrown != None then EL.Decoded([], thrown) else d
  }

  class TokenIterator {
    const f: Function    // a copy of the function given, and of no one else
    const input: string  // the range [begin, end) the iterator was made for
    var begin: nat
    var valid: bool
    var tok: string

    ghost predicate Valid()
      reads this
    {
      begin <= |input|
    }

    /** What the separator still owes for the unread input. */
    ghost function Due(): (d: EL.Decoded)
      requires Valid()
      reads this, Target(f)
    {
      StateOf(f).Due(input[begin..])
    }

    /** The tokens this iterator will present, the current one included, and the
        exception that ends the run. */
    ghost function Remaining(): (d: EL.Decoded)
      requires Valid()
      reads this, Target(f)
    {
      if valid then EL.First(tok, Due()) else EL.Decoded([], None)
    }

    ghost function Left(): nat
      requires Valid()
      reads this, Target(f)
    {
      StateOf(f).Left(input, begin)
    }

    /** The member initializers; `Initialize` is the rest of the original constructor. */
    constructor (given: Function, input: string)
      ensures Valid() && fresh(Target(f)) && StateOf(f) == StateOf(given)
      ensures this.input == input && begin == 0 && !valid
    {
      var copy := CopyOf(given);
      f := copy;
      this.input := input;
      begin, valid, tok := 0, false, "";
    }

    /** One call of the separator. A thrown exception leaves the run at its end. */
    method Call() returns (thrown: Option<EL.Error>)
      requires Valid()
      modifies this, Target(f)
      ensures Valid()
      ensures thrown == None ==> Remaining() == old(Due())
      ensures thrown != None ==> old(Due()) == EL.Decoded([], thrown)
      ensures thrown == None && valid ==> Left() < old(Left()) && StateOf(f).Behind(tok)
      ensures StateOf(f).Finished() == old(StateOf(f).Finished())
      ensures thrown == None && !valid ==> begin == |input| && StateOf(f) == StateOf(f).Finished()
    {
      match f {
        case Chars(c) =>
          valid, begin, tok := c.Next(input, begin);
          thrown := None;
        case List(l) =>
          var outcome;
          outcome, begin, tok := l.Next(input, begin);
          match outcome {
            case Token => valid, thrown := true, None;
            case End => valid, thrown := false, None;
            case Thrown(e) => thrown := Some(e);
          }
      }
    }

    /** Resets the separator; an empty range never calls it. */
    method Initialize() returns (thrown: Option<EL.Error>)
      requires Valid() && begin == 0 && !valid
      modifies this, Target(f)
      ensures Valid()
      ensures input == "" ==> thrown == None && !valid && StateOf(f) == old(StateOf(f).AfterReset())
      ensures input != "" ==> Run(thrown, Remaining()) == old(StateOf(f).AfterReset()).Due(input)
      ensures input != "" && thrown == None && valid ==> StateOf(f).Behind(tok)
      ensures StateOf(f).Finished() == old(StateOf(f).Finished())
      ensures input != "" && thrown == None && !valid ==> StateOf(f) == StateOf(f).Finished()
    {
      match f {
        case Chars(c) => c.Reset();
        case List(l) => l.Reset();
      }
      assert input[0..] == input;
      if begin != |input| {
        thrown := Call();
      } else {
        thrown := None;
      }
    }

    method Increment() returns (thrown: Option<EL.Error>)
      requires Valid() && valid
      modifies this, Target(f)
      ensures Valid()
      ensures EL.First(old(tok), Run(thrown, Remaining())) == old(Remaining())
      ensures thrown == None && valid ==> Left() < old(Left()) && StateOf(f).Behind(tok)
      ensures StateOf(f).Finished() == old(StateOf(f).Finished())
      ensures thrown == None && !valid ==> StateOf(f) == StateOf(f).Finished()
    {
      thrown := Call();
    }

    /** `tokenizer_function`: a copy of the iterator's own. */
    method TokenizerFunction() returns (g: Function)
      ensures fresh(Target(g)) && StateOf(g) == StateOf(f)
    {
      g := CopyOf(f);
    }
  }

  /** `equal`: two ends are equal, and two valid iterators at the same position. */
  predicate Equal(a: TokenIterator, b: TokenIterator)
    reads a, b
  {
    if a.valid && b.valid then a.begin == b.begin && a.input == b.input else a.valid == b.valid
  }

  // ----- whole runs -----

  function Prepend(tokens: seq<string>, d: EL.Decoded): EL.Decoded {
    EL.Decoded(tokens + d.fields, d.error)
  }

  lemma PrependAll(tokens: seq<string>, d: EL.Decoded)
    ensures Prepend([], d) == d
    ensures d.fields == [] ==> Prepend(tokens, d) == EL.Decoded(tokens, d.error)
  {}

  lemma PrependOne(tokens: seq<string>, t: string, d: EL.Decoded)
    ensures Prepend(tokens + [t], d) == Prepend(tokens, EL.First(t, d))
  {}

  lemma NoException(d: EL.Decoded)
    ensures Run(None, d) == d
  {}

  lemma NothingLeft(thrown: Option<EL.Error>, d: EL.Decoded)
    requires thrown == None ==> d == EL.Decoded([], None)
    ensures Run(thrown, d) == EL.Decoded([], thrown)
  {}

  /** A whole run as a caller writes it: construct, then increment until the iterator
      equals an end iterator, or until an exception. It leaves the given function alone;
      the iterator's copy ends in the finished state. */
  method RunUntil(f: Function, input: string, end: TokenIterator)
    returns (tokens: seq<string>, thrown: Option<EL.Error>, it: TokenIterator)
    requires !end.valid
    ensures fresh(it) && fresh(Target(it.f))
    ensures EL.Decoded(tokens, thrown) ==
            if input == "" then EL.Decoded([], None) else StateOf(f).AfterReset().Due(input)
    ensures thrown == None ==>
              StateOf(it.f) == if input == "" then StateOf(f).AfterReset() else StateOf(f).Finished()
  {
    hide EL.First, Run, State.Due, State.Finished, State.AfterReset, State.Left;
    it := new TokenIterator(f, input);
    ghost var start := StateOf(it.f);
    ghost var whole := if input == "" then EL.Decoded([], None) else start.AfterReset().Due(input);
    tokens := [];
    thrown := it.Initialize();
    NoException(it.Remaining());
    PrependAll([], Run(thrown, it.Remaining()));
    while thrown == None && !Equal(it, end)
      invariant it.Valid() && fresh(it) && fresh(Target(it.f))
      invariant whole == Prepend(tokens, Run(thrown, it.Remaining()))
      invariant StateOf(it.f).Finished() == start.Finished()
      invariant thrown == None && !it.valid ==>
                  StateOf(it.f) == if input == "" then start.AfterReset() else start.Finished()
      invariant input == "" ==> thrown == None && !it.valid
      decreases thrown == None, it.valid, it.Left()
    {
      NoException(it.Remaining());
      ghost var t := it.tok;
      tokens := tokens + [it.tok];
      thrown := it.Increment();
      PrependOne(tokens[..|tokens| - 1], t, Run(thrown, it.Remaining()));
      assert tokens[..|tokens| - 1] + [t] == tokens;
    }
    NothingLeft(thrown, it.Remaining());
    PrependAll(tokens, Run(thrown, it.Remaining()));
  }

  /** The end iterator, made for an empty range. */
  method MakeEnd(f: Function) returns (end: TokenIterator)
    ensures fresh(end) && fresh(Target(end.f)) && !end.valid
  {
    end := new TokenIterator(f, "");
    var _ := end.Initialize();
  }

  /** The run from the begin iterator to the end iterator of a text. */
  method Tokenize(f: Function, input: string)
    returns (tokens: seq<string>, thrown: Option<EL.Error>, it: TokenIterator)
    ensures fresh(it) && fresh(Target(it.f))
    ensures EL.Decoded(tokens, thrown) ==
            if input == "" then EL.Decoded([], None) else StateOf(f).AfterReset().Due(input)
    ensures thrown == None ==>
              StateOf(it.f) == if input == "" then StateOf(f).AfterReset() else StateOf(f).Finished()
  {
    var end := MakeEnd(f);
    tokens, thrown, it := RunUntil(f, input, end);
  }

  /** The tokens a fresh `char_separator` delivers. */
  function FreshTokens(text: string, rules: Rules): seq<string> {
    if text == "" then [] else Tokens(text, rules)
  }

  /** A fresh `char_separator` delivers exactly the split of the text: with or
      without its empty tokens, and nothing at all for the empty text. */
  method TokenizeChars(rules: Rules, text: string) returns (tokens: seq<string>)
    ensures tokens == FreshTokens(text, rules)
  {
    var separator := new CharSeparator(rules);
    var thrown, it;
    tokens, thrown, it := Tokenize(Chars(separator), text);
  }

  /** A run over fields and delimiters, by a separator made from delimiter strings. */
  method TokenizeByStrings(dropped: string, kept: string, keepEmpty: bool,
                           fields: seq<string>, delims: seq<Delimiter>) returns (tokens: seq<string>)
    requires PartsForStrings(fields, delims, dropped, kept, keepEmpty)
    ensures var all := Woven(fields, delims);
            tokens == if Weave(fields, delims) == "" then [] else if keepEmpty then all else NonEmpty(all)
  {
    var text := Weave(fields, delims);
    TokensForStrings(text, dropped, kept, keepEmpty);
    tokens := TokenizeChars(OfStrings(dropped, kept, keepEmpty), text);
  }

  /** The same by a default-constructed separator. */
  method TokenizeByClasses(ispunct: char -> bool, isspace: char -> bool,
                           fields: seq<string>, delims: seq<Delimiter>) returns (tokens: seq<string>)
    requires PartsForClasses(fields, delims, ispunct, isspace)
    ensures tokens == if Weave(fields, delims) == "" then [] else NonEmpty(Woven(fields, delims))
  {
    var text := Weave(fields, delims);
    TokensForClasses(text, ispunct, isspace);
    tokens := TokenizeChars(OfClasses(ispunct, isspace), text);
  }

  /** A run of `escaped_list_separator` over encoded fields delivers the fields,
      trailing empty ones included and newlines however written; only the list of one
      empty unquoted field, whose encoding is the empty text, delivers none. */
  method TokenizeEncoded(fields: seq<EL.Field>, r: EL.ListRules, e: char, c: char, q: char)
    returns (tokens: seq<string>, thrown: Option<EL.Error>)
    requires |fields| > 0 && EL.Usable(r, e, c, q) && !r.Special('n')
    ensures thrown == None
    ensures tokens == if |fields| == 1 && fields[0].text == "" && !fields[0].quoted then [] else EL.Texts(fields)
  {
    var separator := new EL.EscapedListSeparator(r);
    var text := EL.Encode(fields, r, e, c, q);
    var it;
    tokens, thrown, it := Tokenize(List(separator), text);
    EL.DecodeEncoded(fields, r, e, c, q);
    EL.EncodesToNothing(fields, r, e, c, q);
  }

  lemma Head(thrown: Option<EL.Error>, valid: bool, tok: string, due: EL.Decoded, tokens: seq<string>)
    requires Run(thrown, if valid then EL.First(tok, due) else EL.Decoded([], None)) == EL.Decoded(tokens, None)
    requires tokens != []
    ensures thrown == None && valid && tok == tokens[0] && due == EL.Decoded(tokens[1..], None)
  {}

  lemma LaterTokens(tok: string, later: EL.Decoded, tokens: seq<string>, error: Option<EL.Error>)
    requires EL.First(tok, later) == EL.First(tok, EL.Decoded(tokens, error))
    ensures later == EL.Decoded(tokens, error)
  {
    assert ([tok] + later.fields)[1..] == later.fields;
    assert ([tok] + tokens)[1..] == tokens;
  }

  /** The iterator at token number `steps` of the given ones, all the tokens of a text. */
  method At(f: Function, input: string, ghost tokens: seq<string>, steps: nat) returns (it: TokenIterator)
    requires input != "" && StateOf(f).AfterReset().Due(input) == EL.Decoded(tokens, None)
    requires steps < |tokens|
    ensures fresh(it) && fresh(Target(it.f)) && it.input == input
    ensures it.Valid() && it.valid && it.tok == tokens[steps]
    ensures it.Due() == EL.Decoded(tokens[steps + 1..], None)
    ensures StateOf(it.f).Finished() == StateOf(f).Finished() && StateOf(it.f).Behind(it.tok)
  {
    hide State.Due, State.Finished, State.AfterReset, State.Left, State.Behind, Run, EL.First;
    it := new TokenIterator(f, input);
    var thrown := it.Initialize();
    Head(thrown, it.valid, it.tok, it.Due(), tokens);
    for i := 0 to steps
      invariant fresh(it) && fresh(Target(it.f)) && it.Valid() && it.valid && it.tok == tokens[i]
      invariant it.Due() == EL.Decoded(tokens[i + 1..], None)
      invariant StateOf(it.f).Finished() == StateOf(f).Finished() && StateOf(it.f).Behind(it.tok)
    {
      ghost var t := it.tok;
      thrown := it.Increment();
      LaterTokens(t, Run(thrown, it.Remaining()), tokens[i + 1..], None);
      Head(thrown, it.valid, it.tok, it.Due(), tokens[i + 1..]);
      assert tokens[i + 1..][1..] == tokens[i + 2..];
    }
  }

  // ----- using a function again -----

  /** The condition under which a used `char_separator`, its flag set or not, is as
      good as a fresh one for a text. */
  predicate ReuseIsHarmless(rules: Rules, flag: bool, text: string) {
    !rules.keepEmpty || !flag || text == "" || rules.Classify(text[0]) == Plain
  }

  /** `reset` does not clear the flag, so it survives into a second run: then the run
      delivers the text's tokens exactly under the condition above, and all but the
      first of them otherwise. */
  method TokenizeUsed(f: Function, text: string) returns (tokens: seq<string>)
    requires f.Chars?
    ensures tokens == FreshTokens(text, f.chars.rules) <==> ReuseIsHarmless(f.chars.rules, f.chars.outputDone, text)
    ensures !ReuseIsHarmless(f.chars.rules, f.chars.outputDone, text) ==>
              FreshTokens(text, f.chars.rules) == [""] + tokens
  {
    var thrown, it;
    tokens, thrown, it := Tokenize(f, text);
    if f.chars.rules.keepEmpty {
      StaleFlag(text, f.chars.rules);
    }
  }

  /** Two runs in a row, the second with the tokenizer function of the iterator that
      has finished the first. */
  method ReuseFinished(rules: Rules, first: string, second: string) returns (tokens: seq<string>)
    ensures tokens == FreshTokens(second, rules) <==> ReuseIsHarmless(rules, first != "", second)
    ensures !ReuseIsHarmless(rules, first != "", second) ==> FreshTokens(second, rules) == [""] + tokens
  {
    var separator := new CharSeparator(rules);
    var _, thrown, it := Tokenize(Chars(separator), first);
    var used := it.TokenizerFunction();
    tokens := TokenizeUsed(used, second);
  }

  /** The same with an iterator stopped at token number `k` of the first text: the flag
      is set unless that token is a delimiter. */
  method ReuseStopped(rules: Rules, first: string, k: nat, second: string) returns (tokens: seq<string>)
    requires k < |FreshTokens(first, rules)|
    ensures var flag := !IsDelimiter(FreshTokens(first, rules)[k], rules);
            && (tokens == FreshTokens(second, rules) <==> ReuseIsHarmless(rules, flag, second))
            && (!ReuseIsHarmless(rules, flag, second) ==> FreshTokens(second, rules) == [""] + tokens)
  {
    var separator := new CharSeparator(rules);
    var it := At(Chars(separator), first, FreshTokens(first, rules), k);
    var used := it.TokenizerFunction();
    tokens := TokenizeUsed(used, second);
  }

  /** An `escaped_list_separator` may always be used again: `reset` clears its flag. */
  method ReuseFinishedList(f: Function, first: string, second: string)
    returns (tokens: seq<string>, thrown: Option<EL.Error>)
    requires f.List?
    ensures EL.Decoded(tokens, thrown) ==
            if second == "" then EL.Decoded([], None) else EL.Decode(second, f.list.rules, false)
  {
    var _, failed, it := Tokenize(f, first);
    var finished := if failed == None then it.f else f;
    tokens, thrown, it := Tokenize(finished, second);
  }

  // ----- comparing iterators -----

  /** Position alone does not determine what is still to come: that takes the flag
      too, except in the middle of a list, in front of a plain character, or where
      empty tokens are dropped. */
  lemma EqualIteratorsOweTheSame(a: TokenIterator, b: TokenIterator)
    requires a.Valid() && b.Valid() && a.valid && b.valid && Equal(a, b)
    ensures a.f.List? && b.f.List? && a.f.list.rules == b.f.list.rules ==>
              (a.Due() == b.Due() <==> a.begin < |a.input| || a.f.list.last == b.f.list.last)
    ensures a.f.Chars? && b.f.Chars? && a.f.chars.rules == b.f.chars.rules ==>
              (a.Due() == b.Due() <==>
               || a.f.chars.outputDone == b.f.chars.outputDone
               || !a.f.chars.rules.keepEmpty
               || (a.begin < |a.input| && a.f.chars.rules.Classify(a.input[a.begin]) == Plain))
  {
    if a.f.Chars? && a.f.chars.rules.keepEmpty {
      StaleFlag(a.input[a.begin..], a.f.chars.rules);
    }
  }

  const SEMICOLON_KEPT := OfStrings("", ";", true)

  /** What is due in `a,`, and where one field or none is left of it. */
  lemma DuesOfTrailing(last: bool, at: nat)
    requires at <= 2
    ensures ListState(EL.DEFAULT_RULES, false).AfterReset().Due("a,") == EL.Decoded(["a", ""], None)
    ensures var due := ListState(EL.DEFAULT_RULES, last).Due("a,"[at..]);
            (due == EL.Decoded([""], None) || due == EL.Decoded([], None)) ==> at == 2
  {
    var r := EL.DEFAULT_RULES;
    assert ","[1..] == "" && "a,"[1..] == "," && "a,"[0..] == "a,";
    assert ',' in r.separator && ',' !in r.escape;
    assert EL.Decode(",", r, false) == EL.First("", EL.Decode("", r, false));
    assert EL.Decode(",", r, false) == EL.Decoded(["", ""], None);
    assert 'a' !in r.separator && 'a' !in r.escape && 'a' !in r.quote;
    assert EL.Decode("a,", r, false) == EL.Prefix(['a'], EL.Decode(",", r, false));
    assert "a" + "" == "a";
  }

  /** The same for a kept delimiter. */
  lemma DuesOfSemicolon(done: bool, at: nat)
    requires at <= 1
    ensures CharState(SEMICOLON_KEPT, false).AfterReset().Due(";") == EL.Decoded(["", ";", ""], None)
    ensures var due := CharState(SEMICOLON_KEPT, done).Due(";"[at..]);
            (due == EL.Decoded([""], None) || due == EL.Decoded([], None)) ==> at == 1
  {
    assert ';' in SEMICOLON_KEPT.keptDelims;
    assert ";"[1..] == "" && ";"[0..] == ";";
    SplitAtDelimiter("", SEMICOLON_KEPT);
    SplitAtDelimiter(";", SEMICOLON_KEPT);
    assert Split(";", SEMICOLON_KEPT) == ["", ";", ""];
  }

  /** Iterators of one run over `a,` at its first and at its last field compare equal,
      and so do iterators over a kept delimiter at it and at the empty field behind it,
      although different tokens are ahead of them. */
  method EqualWithDifferentTokensAhead()
    returns (field: TokenIterator, trailing: TokenIterator, delimiter: TokenIterator, behind: TokenIterator)
    ensures field.Valid() && trailing.Valid() && field.valid && trailing.valid && Equal(field, trailing)
    ensures field.tok == "a" && trailing.tok == "" && field.Due() != trailing.Due()
    ensures delimiter.Valid() && behind.Valid() && delimiter.valid && behind.valid && Equal(delimiter, behind)
    ensures delimiter.tok == ";" && behind.tok == "" && delimiter.Due() != behind.Due()
  {
    hide State.Due, State.AfterReset;
    var list := new EL.EscapedListSeparator(EL.DEFAULT_RULES);
    DuesOfTrailing(false, 0);
    field := At(List(list), "a,", ["a", ""], 0);
    trailing := At(List(list), "a,", ["a", ""], 1);
    DuesOfTrailing(field.f.list.last, field.begin);
    DuesOfTrailing(trailing.f.list.last, trailing.begin);
    var chars := new CharSeparator(SEMICOLON_KEPT);
    DuesOfSemicolon(false, 0);
    delimiter := At(Chars(chars), ";", ["", ";", ""], 1);
    behind := At(Chars(chars), ";", ["", ";", ""], 2);
    DuesOfSemicolon(delimiter.f.chars.outputDone, delimiter.begin);
    DuesOfSemicolon(behind.f.chars.outputDone, behind.begin);
  }
}
