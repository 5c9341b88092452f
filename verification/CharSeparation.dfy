/** `char_separator::operator()`: one token per call, with a flag carried between calls. */
module CharSeparation {

  import opened Splitting

  // ----- the tokens still due -----

  /** The tokens to come when `rest` is unread; `done` says that the field ending
      just before `rest` has been produced. */
  function Due(rest: string, r: Rules, done: bool): (tokens: seq<string>) {
    if !r.keepEmpty then NonEmpty(Split(rest, r))
    else if !done || (rest != [] && r.Classify(rest[0]) == Plain) then Split(rest, r)
    else AfterField(rest, r)
  }

  lemma DueEmptyField(rest: string, r: Rules)
    requires r.keepEmpty && (rest != [] ==> r.Classify(rest[0]) != Plain)
    ensures Due(rest, r, false) == [""] + Due(rest, r, true)
  {
    SplitAtDelimiter(rest, r);
  }

  lemma DueNothing(r: Rules)
    ensures r.keepEmpty ==> Due([], r, true) == []
    ensures !r.keepEmpty ==> Due([], r, false) == Due([], r, true) == []
  {
    SplitAtDelimiter([], r);
    NonEmptyCons("", []);
    assert [""] + AfterField([], r) == [""];
  }

  lemma DueDelimiter(input: string, next: nat, r: Rules)
    requires r.keepEmpty && next < |input| && r.Classify(input[next]) != Plain
    ensures Due(input[next..], r, true) ==
            var later := Due(input[next + 1..], r, false);
            if r.Classify(input[next]) == Kept then [[input[next]]] + later else later
  {
    var rest := input[next..];
    assert rest[1..] == input[next + 1..];
  }

  lemma DueField(input: string, start: nat, next: nat, r: Rules, done: bool)
    requires r.keepEmpty && start <= next <= |input| && (done ==> start < next)
    requires forall i :: start <= i < next ==> r.Classify(input[i]) == Plain
    requires next < |input| ==> r.Classify(input[next]) != Plain
    ensures Due(input[start..], r, done) == [input[start..next]] + Due(input[next..], r, true)
  {
    var rest := input[start..];
    SplitField(rest, r, next - start);
    assert rest[next - start..] == input[next..] && rest[..next - start] == input[start..next];
  }

  lemma DropDelimiter(input: string, next: nat, r: Rules, done: bool)
    requires !r.keepEmpty && next < |input| && r.Classify(input[next]) != Plain
    ensures Due(input[next..], r, done) ==
            var later := Due(input[next + 1..], r, done);
            if r.Classify(input[next]) == Kept then [[input[next]]] + later else later
  {
    var rest := input[next..];
    assert rest[1..] == input[next + 1..];
    if r.Classify(input[next]) == Kept {
      TakeKept(rest, r);
    } else {
      SkipDropped(rest, r);
    }
  }

  lemma DropField(input: string, start: nat, next: nat, r: Rules, done: bool)
    requires !r.keepEmpty && start < next <= |input|
    requires forall i :: start <= i < next ==> r.Classify(input[i]) == Plain
    requires next < |input| ==> r.Classify(input[next]) != Plain
    ensures Due(input[start..], r, done) == [input[start..next]] + Due(input[next..], r, done)
  {
    var rest := input[start..];
    TakeField(rest, r, next - start);
    assert rest[next - start..] == input[next..] && rest[..next - start] == input[start..next];
  }

  /** Whether a token is a kept delimiter: a field holds plain characters only. */
  predicate IsDelimiter(tok: string, r: Rules) {
    |tok| == 1 && r.Classify(tok[0]) == Kept
  }

  /** What decreases with every token: a position yields at most two. */
  function Left(input: string, next: nat, done: bool): nat
    requires next <= |input|
  {
    2 * (|input| - next) + if done then 0 else 1
  }

  // ----- the separator -----

  class CharSeparator {
    const rules: Rules
    var outputDone: bool  // the field at the current position has been produced

    /** The original's constructors fix the rules: `OfStrings` or `OfClasses`. */
    constructor (rules: Rules)
      ensures this.rules == rules && !outputDone
    {
      this.rules := rules;
      outputDone := false;
    }

    /** A separator is copied by value, its flag included. */
    constructor Copy(other: CharSeparator)
      ensures rules == other.rules && outputDone == other.outputDone
    {
      rules := other.rules;
      outputDone := other.outputDone;
    }

    /** Does nothing in the original: in particular it leaves the flag alone. */
    method Reset()
      ensures outputDone == old(outputDone)
    {}

    /** Appends the characters up to the next delimiter. */
    method ReadField(input: string, start: nat) returns (tok: string, next: nat)
      requires start <= |input|
      ensures start <= next <= |input| && tok == input[start..next]
      ensures forall i :: start <= i < next ==> rules.Classify(input[i]) == Plain
      ensures next < |input| ==> rules.Classify(input[next]) != Plain
    {
      tok, next := "", start;
      while next < |input| && !rules.IsDropped(input[next]) && !rules.IsKept(input[next])
        invariant start <= next <= |input| && tok == input[start..next]
        invariant forall i :: start <= i < next ==> rules.Classify(input[i]) == Plain
      {
        tok := tok + [input[next]];
        next := next + 1;
      }
    }

    /** `tok` is built both ways the original builds it, by appending characters and
        by assigning the range they came from. */
    method NextDroppingEmpty(input: string, next: nat) returns (ok: bool, next': nat, tok: string)
      requires next <= |input| && !rules.keepEmpty
      ensures next <= next' <= |input|
      ensures ok ==> next < next' &&
                     Due(input[next..], rules, outputDone) == [tok] + Due(input[next'..], rules, outputDone)
      ensures !ok ==> next' == |input| && Due(input[next..], rules, outputDone) == []
    {
      hide Due;
      next' := next;
      tok := "";
      while next' < |input| && rules.IsDropped(input[next'])
        invariant next <= next' <= |input|
        invariant Due(input[next..], rules, outputDone) == Due(input[next'..], rules, outputDone)
      {
        DropDelimiter(input, next', rules, outputDone);
        next' := next' + 1;
      }
      var start := next';
      if next' == |input| {
        DueNothing(rules);
        assert input[next'..] == [];
        return false, next', tok;
      }
      if rules.IsKept(input[next']) {
        DropDelimiter(input, next', rules, outputDone);
        tok := tok + [input[next']];
        assert tok == [input[next']];
        next' := next' + 1;
      } else {
        tok, next' := ReadField(input, next');
        DropField(input, start, next', rules, outputDone);
      }
      assert tok == input[start..next'];
      ok := true;
    }

    method NextKeepingEmpty(input: string, next: nat) returns (ok: bool, next': nat, tok: string)
      requires next <= |input| && rules.keepEmpty
      modifies this
      ensures next <= next' <= |input|
      ensures ok ==> Due(input[next..], rules, old(outputDone)) == [tok] + Due(input[next'..], rules, outputDone)
      ensures !ok ==> Due(input[next..], rules, old(outputDone)) == []
      ensures !ok ==> next' == |input| && outputDone == old(outputDone) && (rules.keepEmpty ==> outputDone)
      ensures ok ==> Left(input, next', outputDone) < Left(input, next, old(outputDone))
      ensures ok && rules.keepEmpty ==> outputDone == !IsDelimiter(tok, rules)
    {
      hide Due;
      next' := next;
      tok := "";
      var start := next;
      if next' == |input| {
        assert input[next'..] == [];
        if !outputDone {
          DueEmptyField([], rules);
          outputDone := true;
          return true, next', tok;
        } else {
          DueNothing(rules);
          return false, next', tok;
        }
      }
      if rules.IsKept(input[next']) {
        if !outputDone {
          DueEmptyField(input[next'..], rules);
          outputDone := true;
        } else {
          DueDelimiter(input, next', rules);
          tok := tok + [input[next']];
          assert tok == [input[next']] && IsDelimiter(tok, rules);
          next' := next' + 1;
          outputDone := false;
        }
      } else if !outputDone && rules.IsDropped(input[next']) {
        DueEmptyField(input[next'..], rules);
        outputDone := true;
      } else {
        if rules.IsDropped(input[next']) {
          DueDelimiter(input, next', rules);
          next' := next' + 1;
          start := next';
        }
        tok, next' := ReadField(input, next');
        DueField(input, start, next', rules, old(outputDone) && start == next);
        assert forall i :: 0 <= i < |tok| ==> rules.Classify(tok[i]) == Plain;
        outputDone := true;
      }
      assert tok == input[start..next'];
      ok := true;
    }

    /** One call on the unread part `input[next..]`. */
    method Next(input: string, next: nat) returns (ok: bool, next': nat, tok: string)
      requires next <= |input|
      modifies this
      ensures next <= next' <= |input|
      ensures ok ==> Due(input[next..], rules, old(outputDone)) == [tok] + Due(input[next'..], rules, outputDone)
      ensures !ok ==> Due(input[next..], rules, old(outputDone)) == []
      ensures !ok ==> next' == |input| && outputDone == old(outputDone) && (rules.keepEmpty ==> outputDone)
      ensures !rules.keepEmpty ==> outputDone == old(outputDone)
      ensures ok ==> Left(input, next', outputDone) < Left(input, next, old(outputDone))
      ensures ok && rules.keepEmpty ==> outputDone == !IsDelimiter(tok, rules)
    {
      hide Due;
      if rules.keepEmpty {
        ok, next', tok := NextKeepingEmpty(input, next);
      } else {
        ok, next', tok := NextDroppingEmpty(input, next);
      }
    }
  }

  /** With the flag left set, a text is split correctly exactly when it starts with a
      plain character; otherwise its first (empty) field is lost. */
  lemma StaleFlag(text: string, r: Rules)
    requires r.keepEmpty
    ensures Due(text, r, true) == Split(text, r) <==> text != "" && r.Classify(text[0]) == Plain
    ensures !(text != "" && r.Classify(text[0]) == Plain) ==> Split(text, r) == [""] + Due(text, r, true)
  {
    if text == "" || r.Classify(text[0]) != Plain {
      DueEmptyField(text, r);
      assert |Split(text, r)| == 1 + |Due(text, r, true)|;
    }
  }
}
