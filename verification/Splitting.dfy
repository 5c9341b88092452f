/** What a `char_separator` run must produce: a plain recursive split of the text. */
module Splitting {

  import opened Sequences

  datatype Class = Kept | Dropped | Plain

  /** The configuration of a `char_separator`. The C library's `ispunct` and
      `isspace` are parameters. */
  datatype Rules = Rules(keptDelims: string, droppedDelims: string,
                         useIspunct: bool, useIsspace: bool, keepEmpty: bool,
                         ispunct: char -> bool, isspace: char -> bool)
  {
    predicate IsKept(e: char) {
      if |keptDelims| > 0 then e in keptDelims else useIspunct && ispunct(e)
    }

    predicate IsDropped(e: char) {
      if |droppedDelims| > 0 then e in droppedDelims else useIsspace && isspace(e)
    }

    /** A character in both sets is kept when empty tokens are kept, and dropped otherwise. */
    function Classify(e: char): Class {
      if keepEmpty then
        if IsKept(e) then Kept else if IsDropped(e) then Dropped else Plain
      else
        if IsDropped(e) then Dropped else if IsKept(e) then Kept else Plain
    }
  }

  /** The constructor from delimiter strings: dropped ones, kept ones (none by default),
      and whether empty tokens are kept. */
  function OfStrings(dropped: string, kept: string, keepEmpty: bool): (r: Rules) {
    Rules(kept, dropped, false, false, keepEmpty, _ => false, _ => false)
  }

  /** The default constructor. */
  function OfClasses(ispunct: char -> bool, isspace: char -> bool): (r: Rules) {
    Rules("", "", true, true, false, ispunct, isspace)
  }

  /** Length of the field at the front: up to the first delimiter. */
  function FieldLength(s: string, r: Rules): (n: nat)
    ensures n <= |s|
    ensures forall i :: 0 <= i < n ==> r.Classify(s[i]) == Plain
    ensures n < |s| ==> r.Classify(s[n]) != Plain
  {
    if s == [] || r.Classify(s[0]) != Plain then 0 else 1 + FieldLength(s[1..], r)
  }

  /** Every field, empty ones included, and every kept delimiter, in order. */
  function Split(s: string, r: Rules): (tokens: seq<string>)
    ensures |tokens| > 0
    decreases |s|
  {
    var n := FieldLength(s, r);
    if n == |s| then [s]
    else [s[..n]] + AfterField(s[n..], r)
  }

  /** The tokens due when a field has just been produced. */
  function AfterField(s: string, r: Rules): (tokens: seq<string>)
    requires s != [] ==> r.Classify(s[0]) != Plain
    decreases |s|, 0
  {
    if s == [] then []
    else if r.Classify(s[0]) == Kept then [[s[0]]] + Split(s[1..], r)
    else Split(s[1..], r)
  }

  function NonEmpty(tokens: seq<string>): (t: seq<string>)
    ensures forall x :: x in t ==> x != ""
  {
    if tokens == [] then []
    else if tokens[0] == "" then NonEmpty(tokens[1..])
    else [tokens[0]] + NonEmpty(tokens[1..])
  }

  /** All tokens of a text. */
  function Tokens(s: string, r: Rules): seq<string> {
    if r.keepEmpty then Split(s, r) else NonEmpty(Split(s, r))
  }

  // ----- one token at the front -----

  lemma {:induction false} FieldLengthIs(s: string, r: Rules, n: nat)
    requires n <= |s| && forall i :: 0 <= i < n ==> r.Classify(s[i]) == Plain
    requires n < |s| ==> r.Classify(s[n]) != Plain
    ensures FieldLength(s, r) == n
  {
    if n > 0 {
      FieldLengthIs(s[1..], r, n - 1);
    }
  }

  lemma SplitAtDelimiter(s: string, r: Rules)
    requires s == [] || r.Classify(s[0]) != Plain
    ensures Split(s, r) == [""] + AfterField(s, r)
  {
    FieldLengthIs(s, r, 0);
    assert s[0..] == s && s[..0] == "";
  }

  lemma SplitField(s: string, r: Rules, n: nat)
    requires n <= |s| && forall i :: 0 <= i < n ==> r.Classify(s[i]) == Plain
    requires n < |s| ==> r.Classify(s[n]) != Plain
    ensures Split(s, r) == [s[..n]] + AfterField(s[n..], r)
  {
    FieldLengthIs(s, r, n);
    if n == |s| {
      assert s[..n] == s && s[n..] == [];
    }
  }

  lemma NonEmptyCons(t: string, rest: seq<string>)
    ensures NonEmpty([t] + rest) == if t == "" then NonEmpty(rest) else [t] + NonEmpty(rest)
  {
    assert ([t] + rest)[1..] == rest;
  }

  /** A dropped delimiter at the front contributes no non-empty token. */
  lemma SkipDropped(s: string, r: Rules)
    requires s != [] && r.Classify(s[0]) == Dropped
    ensures NonEmpty(Split(s, r)) == NonEmpty(Split(s[1..], r))
  {
    SplitAtDelimiter(s, r);
    NonEmptyCons("", AfterField(s, r));
  }

  lemma TakeKept(s: string, r: Rules)
    requires s != [] && r.Classify(s[0]) == Kept
    ensures NonEmpty(Split(s, r)) == [[s[0]]] + NonEmpty(Split(s[1..], r))
  {
    SplitAtDelimiter(s, r);
    NonEmptyCons("", AfterField(s, r));
    NonEmptyCons([s[0]], Split(s[1..], r));
  }

  lemma TakeField(s: string, r: Rules, n: nat)
    requires 0 < n <= |s| && forall i :: 0 <= i < n ==> r.Classify(s[i]) == Plain
    requires n < |s| ==> r.Classify(s[n]) != Plain
    ensures NonEmpty(Split(s, r)) == [s[..n]] + NonEmpty(Split(s[n..], r))
  {
    SplitField(s, r, n);
    NonEmptyCons(s[..n], AfterField(s[n..], r));
    SplitAtDelimiter(s[n..], r);
    NonEmptyCons("", AfterField(s[n..], r));
  }

  // ----- what the split of a text is -----

  function Count(s: string, r: Rules, c: Class): nat {
    if s == [] then 0 else (if r.Classify(s[0]) == c then 1 else 0) + Count(s[1..], r, c)
  }

  /** A plain character is the first one of the first field. */
  lemma SplitPlain(s: string, r: Rules)
    requires s != [] && r.Classify(s[0]) == Plain
    ensures var rest := Split(s[1..], r);
            Split(s, r) == [[s[0]] + rest[0]] + rest[1..]
  {
    hide Split, AfterField, FieldLength;
    var n := FieldLength(s[1..], r);
    SplitField(s[1..], r, n);
    SplitField(s, r, n + 1);
    assert s[..n + 1] == [s[0]] + s[1..][..n];
    assert s[n + 1..] == s[1..][n..];
  }

  /** One field more than there are delimiters, and one token for each kept one. */
  lemma {:induction false} SplitCount(s: string, r: Rules)
    ensures |Split(s, r)| == 1 + Count(s, r, Dropped) + 2 * Count(s, r, Kept)
    decreases |s|
  {
    if s == [] {
    } else if r.Classify(s[0]) == Plain {
      SplitPlain(s, r);
      SplitCount(s[1..], r);
    } else {
      SplitAtDelimiter(s, r);
      SplitCount(s[1..], r);
    }
  }

  function WithoutDropped(s: string, r: Rules): string {
    if s == [] then ""
    else if r.Classify(s[0]) == Dropped then WithoutDropped(s[1..], r)
    else [s[0]] + WithoutDropped(s[1..], r)
  }

  /** Nothing but the dropped delimiters is lost, and nothing is reordered. */
  lemma {:induction false} SplitConserves(s: string, r: Rules)
    ensures Flatten(Split(s, r)) == WithoutDropped(s, r)
    decreases |s|
  {
    if s == [] {
      assert Split(s, r) == [""];
    } else if r.Classify(s[0]) == Plain {
      SplitPlain(s, r);
      SplitConserves(s[1..], r);
      var rest := Split(s[1..], r);
      FlattenCons([s[0]] + rest[0], rest[1..]);
      assert ([s[0]] + rest[0]) + Flatten(rest[1..]) == [s[0]] + (rest[0] + Flatten(rest[1..]));
    } else {
      SplitAtDelimiter(s, r);
      SplitConserves(s[1..], r);
      FlattenCons("", AfterField(s, r));
      FlattenCons([s[0]], Split(s[1..], r));
    }
  }

  /** Dropping empty tokens loses no character either. */
  lemma {:induction false} NonEmptyConserves(tokens: seq<string>)
    ensures Flatten(NonEmpty(tokens)) == Flatten(tokens)
  {
    if tokens != [] {
      NonEmptyConserves(tokens[1..]);
    }
  }

  function Join(fields: seq<string>, d: char): string
    requires |fields| > 0
  {
    if |fields| == 1 then fields[0] else fields[0] + [d] + Join(fields[1..], d)
  }

  ghost predicate AllPlain(s: string, r: Rules) {
    forall i :: 0 <= i < |s| ==> r.Classify(s[i]) == Plain
  }

  /** A field and the delimiter behind it, split off. */
  lemma SplitJoined(f: string, d: char, rest: string, r: Rules)
    requires AllPlain(f, r) && r.Classify(d) != Plain
    ensures Split(f + [d] + rest, r) == [f] + (if r.Classify(d) == Kept then [[d]] else []) + Split(rest, r)
  {
    var s := f + [d] + rest;
    assert s[|f|..] == [d] + rest && s[..|f|] == f;
    assert s[|f|..][1..] == rest;
    SplitField(s, r, |f|);
  }

  /** Splitting undoes joining with any dropped delimiter. */
  lemma {:induction false} SplitOfJoin(fields: seq<string>, d: char, r: Rules)
    requires |fields| > 0 && r.Classify(d) == Dropped
    requires forall f :: f in fields ==> AllPlain(f, r)
    ensures Split(Join(fields, d), r) == fields
  {
    var f := fields[0];
    assert AllPlain(f, r) by { assert f in fields; }
    if |fields| == 1 {
      FieldLengthIs(f, r, |f|);
      assert fields == [f];
    } else {
      var rest := Join(fields[1..], d);
      SplitOfJoin(fields[1..], d, r);
      SplitJoined(f, d, rest, r);
      assert fields == [f] + fields[1..];
    }
  }

  // ----- the tokens of a text, in terms of what a separator is made from -----

  /** A delimiter in a text, and whether it comes out as a token. */
  datatype Delimiter = Delimiter(ch: char, kept: bool)

  /** A text: fields, empty ones included, with one delimiter between neighbours. */
  function Weave(fields: seq<string>, delims: seq<Delimiter>): string
    requires |fields| == |delims| + 1
  {
    if delims == [] then fields[0] else fields[0] + [delims[0].ch] + Weave(fields[1..], delims[1..])
  }

  /** Its fields and kept delimiters, in order. */
  function Woven(fields: seq<string>, delims: seq<Delimiter>): seq<string>
    requires |fields| == |delims| + 1
  {
    if delims == [] then fields
    else [fields[0]] + (if delims[0].kept then [[delims[0].ch]] else []) + Woven(fields[1..], delims[1..])
  }

  ghost predicate PartsFor(fields: seq<string>, delims: seq<Delimiter>, r: Rules) {
    && |fields| == |delims| + 1
    && (forall f :: f in fields ==> AllPlain(f, r))
    && (forall d :: d in delims ==> r.Classify(d.ch) == if d.kept then Kept else Dropped)
  }

  /** For delimiter strings: the fields hold no delimiter; one that is in both strings
      counts as kept if empty tokens are kept, and else as dropped. */
  ghost predicate PartsForStrings(fields: seq<string>, delims: seq<Delimiter>,
                                  dropped: string, kept: string, keepEmpty: bool)
  {
    && |fields| == |delims| + 1
    && (forall f, ch :: f in fields && ch in f ==> ch !in dropped && ch !in kept)
    && (forall d :: d in delims ==> d.ch in dropped || d.ch in kept)
    && (forall d :: d in delims ==> (d.kept <==> d.ch in kept && (keepEmpty || d.ch !in dropped)))
  }

  /** For the default constructor: white space is dropped, other punctuation is kept. */
  ghost predicate PartsForClasses(fields: seq<string>, delims: seq<Delimiter>,
                                  ispunct: char -> bool, isspace: char -> bool)
  {
    && |fields| == |delims| + 1
    && (forall f, ch :: f in fields && ch in f ==> !isspace(ch) && !ispunct(ch))
    && (forall d :: d in delims ==> isspace(d.ch) || ispunct(d.ch))
    && (forall d :: d in delims ==> (d.kept <==> !isspace(d.ch)))
  }

  lemma {:induction false} SplitOfWeave(fields: seq<string>, delims: seq<Delimiter>, r: Rules)
    requires PartsFor(fields, delims, r)
    ensures Split(Weave(fields, delims), r) == Woven(fields, delims)
    decreases |delims|
  {
    if delims == [] {
      var f := fields[0];
      assert f in fields;
      FieldLengthIs(f, r, |f|);
    } else {
      hide Split, Rules.Classify;
      assert fields[0] in fields && delims[0] in delims;
      SplitJoined(fields[0], delims[0].ch, Weave(fields[1..], delims[1..]), r);
      SplitOfWeave(fields[1..], delims[1..], r);
    }
  }

  /** Every text has such parts. */
  lemma {:induction false} PartsOfText(text: string, r: Rules) returns (fields: seq<string>, delims: seq<Delimiter>)
    ensures PartsFor(fields, delims, r) && Weave(fields, delims) == text
    decreases |text|
  {
    var n := FieldLength(text, r);
    var f := text[..n];
    if n == |text| {
      fields, delims := [f], [];
    } else {
      var later, laterDelims := PartsOfText(text[n + 1..], r);
      var d := Delimiter(text[n], r.Classify(text[n]) == Kept);
      fields, delims := [f] + later, [d] + laterDelims;
      assert fields[1..] == later && delims[1..] == laterDelims;
      assert text == f + [text[n]] + text[n + 1..];
    }
  }

  lemma StringsDecide(fields: seq<string>, delims: seq<Delimiter>, dropped: string, kept: string, keepEmpty: bool)
    ensures PartsForStrings(fields, delims, dropped, kept, keepEmpty) <==>
            PartsFor(fields, delims, OfStrings(dropped, kept, keepEmpty))
  {
    var r := OfStrings(dropped, kept, keepEmpty);
    assert forall ch :: r.Classify(ch) == Plain <==> ch !in dropped && ch !in kept;
    if PartsFor(fields, delims, r) {
      forall f, ch | f in fields && ch in f
        ensures ch !in dropped && ch !in kept
      {
        var i :| 0 <= i < |f| && f[i] == ch;
        assert AllPlain(f, r);
      }
    }
    if PartsForStrings(fields, delims, dropped, kept, keepEmpty) {
      forall f | f in fields
        ensures AllPlain(f, r)
      {}
    }
  }

  lemma ClassesDecide(fields: seq<string>, delims: seq<Delimiter>, ispunct: char -> bool, isspace: char -> bool)
    ensures PartsForClasses(fields, delims, ispunct, isspace) <==>
            PartsFor(fields, delims, OfClasses(ispunct, isspace))
  {
    var r := OfClasses(ispunct, isspace);
    assert forall ch :: r.Classify(ch) == Plain <==> !isspace(ch) && !ispunct(ch);
    if PartsFor(fields, delims, r) {
      forall f, ch | f in fields && ch in f
        ensures !isspace(ch) && !ispunct(ch)
      {
        var i :| 0 <= i < |f| && f[i] == ch;
        assert AllPlain(f, r);
      }
    }
    if PartsForClasses(fields, delims, ispunct, isspace) {
      forall f | f in fields
        ensures AllPlain(f, r)
      {}
    }
  }

  /** The tokens of a separator made from strings, for every text. */
  lemma TokensForStrings(text: string, dropped: string, kept: string, keepEmpty: bool)
    ensures exists fields, delims ::
              PartsForStrings(fields, delims, dropped, kept, keepEmpty) && Weave(fields, delims) == text
    ensures forall fields, delims | PartsForStrings(fields, delims, dropped, kept, keepEmpty) &&
                                    Weave(fields, delims) == text ::
              var all := Woven(fields, delims);
              Tokens(text, OfStrings(dropped, kept, keepEmpty)) == if keepEmpty then all else NonEmpty(all)
  {
    var r := OfStrings(dropped, kept, keepEmpty);
    var fields, delims := PartsOfText(text, r);
    StringsDecide(fields, delims, dropped, kept, keepEmpty);
    forall fields, delims | PartsForStrings(fields, delims, dropped, kept, keepEmpty) && Weave(fields, delims) == text
      ensures Split(text, r) == Woven(fields, delims)
    {
      StringsDecide(fields, delims, dropped, kept, keepEmpty);
      SplitOfWeave(fields, delims, r);
    }
  }

  /** In particular: fields without delimiters, joined by a dropped one. */
  lemma TokensOfJoin(fields: seq<string>, d: char, dropped: string, kept: string, keepEmpty: bool)
    requires |fields| > 0 && d in dropped && !(keepEmpty && d in kept)
    requires forall f, ch :: f in fields && ch in f ==> ch !in dropped && ch !in kept
    ensures Tokens(Join(fields, d), OfStrings(dropped, kept, keepEmpty)) ==
            if keepEmpty then fields else NonEmpty(fields)
  {
    var r := OfStrings(dropped, kept, keepEmpty);
    forall f | f in fields
      ensures AllPlain(f, r)
    {}
    SplitOfJoin(fields, d, r);
  }

  /** And a text without delimiters is its own only token. */
  lemma OneToken(text: string, dropped: string, kept: string, keepEmpty: bool)
    requires forall ch :: ch in text ==> ch !in dropped && ch !in kept
    ensures Tokens(text, OfStrings(dropped, kept, keepEmpty)) == if keepEmpty || text != "" then [text] else []
  {
    TokensForStrings(text, dropped, kept, keepEmpty);
    assert PartsForStrings([text], [], dropped, kept, keepEmpty);
    assert Weave([text], []) == text && Woven([text], []) == [text];
    NonEmptyCons(text, []);
    assert [text] + [] == [text];
  }

  /** The same for the default constructor, which drops empty tokens. */
  lemma TokensForClasses(text: string, ispunct: char -> bool, isspace: char -> bool)
    ensures exists fields, delims :: PartsForClasses(fields, delims, ispunct, isspace) && Weave(fields, delims) == text
    ensures forall fields, delims | PartsForClasses(fields, delims, ispunct, isspace) &&
                                    Weave(fields, delims) == text ::
              Tokens(text, OfClasses(ispunct, isspace)) == NonEmpty(Woven(fields, delims))
  {
    var r := OfClasses(ispunct, isspace);
    var fields, delims := PartsOfText(text, r);
    ClassesDecide(fields, delims, ispunct, isspace);
    forall fields, delims | PartsForClasses(fields, delims, ispunct, isspace) && Weave(fields, delims) == text
      ensures Split(text, r) == Woven(fields, delims)
    {
      ClassesDecide(fields, delims, ispunct, isspace);
      SplitOfWeave(fields, delims, r);
    }
  }
}
