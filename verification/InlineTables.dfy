/**
 Joining multi-line inline tables: `collapse_inline_tables` of
 tools/scripts/check_packaging_metadata.py, a scanner over the characters of a manifest.
 */
module InlineTables {
  import opened TomlText

  /** What the scanner remembers: brace depth, and inside a string its quote and a pending escape. */
  datatype Scan = Scan(depth: nat, inStr: bool, quote: char, escaped: bool)

  const START: Scan := Scan(0, false, ' ', false)

  function Step(s: Scan, c: char): Scan {
    if s.inStr then
      if s.escaped then s.(escaped := false)
      else if c == '\\' && s.quote == '"' then s.(escaped := true)
      else if c == s.quote then s.(inStr := false)
      else s
    else if c == '"' || c == '\'' then s.(inStr := true, quote := c)
    else if c == '{' then s.(depth := s.depth + 1)
    else if c == '}' then s.(depth := if s.depth == 0 then 0 else s.depth - 1)
    else s
  }

  /** The scanner state after the first `i` characters. */
  function StateAt(text: string, i: nat): Scan
    requires i <= |text|
  {
    if i == 0 then START else Step(StateAt(text, i - 1), text[i - 1])
  }

  /** A newline outside strings and inside braces. */
  predicate Foldable(text: string, i: nat)
    requires i < |text|
  {
    text[i] == '\n' && !StateAt(text, i).inStr && StateAt(text, i).depth > 0
  }

  /** `out` is `text` with exactly the foldable newlines replaced by spaces. */
  ghost predicate Collapses(text: string, out: string) {
    && |out| == |text|
    && forall i :: 0 <= i < |text| ==> out[i] == if Foldable(text, i) then ' ' else text[i]
  }

  /** The output for the first `n` characters. */
  function CollapseTo(text: string, n: nat): string
    requires n <= |text|
  {
    if n == 0 then [] else CollapseTo(text, n - 1) + [if Foldable(text, n - 1) then ' ' else text[n - 1]]
  }

  lemma {:induction false} CollapseToAt(text: string, n: nat)
    requires n <= |text|
    ensures |CollapseTo(text, n)| == n
    ensures forall i :: 0 <= i < n ==> CollapseTo(text, n)[i] == if Foldable(text, i) then ' ' else text[i]
  {
    if n > 0 {
      CollapseToAt(text, n - 1);
    }
  }

  /** The loop of the script, with its four state variables. */
  method CollapseInlineTables(text: string) returns (out: string)
    ensures Collapses(text, out)
  {
    out := [];
    var depth: nat, inStr, strCh, escaped := 0, false, ' ', false;
    for i := 0 to |text|
      invariant Scan(depth, inStr, strCh, escaped) == StateAt(text, i)
      invariant out == CollapseTo(text, i)
    {
      var ch := text[i];
      if inStr {
        out := out + [ch];
        if escaped {
          escaped := false;
        } else if ch == '\\' && strCh == '"' {
          escaped := true;
        } else if ch == strCh {
          inStr := false;
        }
        continue;
      }
      if ch == '"' || ch == '\'' {
        inStr := true;
        strCh := ch;
        out := out + [ch];
        continue;
      }
      if ch == '{' {
        depth := depth + 1;
        out := out + [ch];
      } else if ch == '}' {
        depth := if depth == 0 then 0 else depth - 1;
        out := out + [ch];
      } else if ch == '\n' && depth > 0 {
        out := out + [' '];
      } else {
        out := out + [ch];
      }
    }
    CollapseToAt(text, |text|);
  }

  /** The output drives the scanner through the same states as the input. */
  lemma {:induction false} SameStates(text: string, out: string, i: nat)
    requires Collapses(text, out) && i <= |text|
    ensures StateAt(out, i) == StateAt(text, i)
  {
    if i > 0 {
      SameStates(text, out, i - 1);
    }
  }

  /** Nothing is left to fold, so collapsing again changes nothing. */
  lemma CollapseIdempotent(text: string, out: string, again: string)
    requires Collapses(text, out) && Collapses(out, again)
    ensures forall i :: 0 <= i < |out| ==> !Foldable(out, i)
    ensures again == out
  {
    forall i | 0 <= i < |out|
      ensures !Foldable(out, i)
    {
      SameStates(text, out, i);
    }
  }

  /** A text is unchanged exactly when it has no newline outside strings and inside braces. */
  lemma UnchangedIffNothingFoldable(text: string, out: string)
    requires Collapses(text, out)
    ensures out == text <==> forall i :: 0 <= i < |text| ==> !Foldable(text, i)
  {
    if out == text {
      forall i | 0 <= i < |text|
        ensures !Foldable(text, i)
      {
        SameStates(text, out, i);
      }
    }
  }

  // ----- Against the lexical structure of TOML ---------------------------------------------------------

  /** Scanner and document agree on the brace depth and on being in a string. Between the quotes of a triple
      quote there is nothing to agree on. */
  predicate SeesAlike(s: Scan, l: Lex) {
    s.depth == l.depth && (l.mode.Delim? || s.inStr == (l.mode.Str? || l.mode.Multi?))
  }

  ghost predicate ReadsRight(text: string) {
    forall i :: 0 <= i <= |text| ==> SeesAlike(StateAt(text, i), LexAt(text, i))
  }

  /** A character the scanner takes for something it is not: in a comment a quote or a brace, except a closing
      one outside all braces; in a multi-line string a quote of its own kind that does not close it. */
  predicate Misread(text: string, i: nat)
    requires i < |text|
  {
    match LexAt(text, i).mode
    case Comment => Quote(text[i]) || text[i] == '{' || (text[i] == '}' && LexAt(text, i).depth > 0)
    case Multi(q, escaped) => !escaped && text[i] == q && !Closes(text, i, q)
    case _ => false
  }

  /** The scanner's whole state, as the mode of the document determines it. */
  ghost predicate InStep(s: Scan, l: Lex, text: string, i: nat) {
    && s.depth == l.depth
    && match l.mode
       case Code => !s.inStr && !s.escaped
       case Comment => !s.inStr && !s.escaped
       case Str(q, e) => s.inStr && s.quote == q && s.escaped == e && Quote(q)
       case Multi(q, e) => s.inStr && s.quote == q && s.escaped == e && Quote(q)
       case Delim(q, left, opening) =>
         && Quote(q) && !s.escaped && 1 <= left <= 2 && i + left <= |text|
         && text[i] == q && text[i + left - 1] == q
         && s.inStr == (opening == (left == 2)) && (s.inStr ==> s.quote == q)
  }

  lemma OneMoreInStep(text: string, i: nat)
    requires i < |text| && InStep(StateAt(text, i), LexAt(text, i), text, i) && !Misread(text, i)
    ensures InStep(StateAt(text, i + 1), LexAt(text, i + 1), text, i + 1)
  {
    assert StateAt(text, i + 1) == Step(StateAt(text, i), text[i]);
    assert LexAt(text, i + 1) == Next(LexAt(text, i), text, i);
  }

  lemma {:induction false} StaysInStep(text: string, i: nat)
    requires i <= |text| && forall j :: 0 <= j < i ==> !Misread(text, j)
    ensures InStep(StateAt(text, i), LexAt(text, i), text, i)
  {
    if i > 0 {
      StaysInStep(text, i - 1);
      OneMoreInStep(text, i - 1);
    }
  }

  /** A misread character puts the scanner off at once. */
  lemma MisreadShows(text: string, i: nat)
    requires i < |text| && InStep(StateAt(text, i), LexAt(text, i), text, i) && Misread(text, i)
    ensures !SeesAlike(StateAt(text, i + 1), LexAt(text, i + 1))
  {
    assert StateAt(text, i + 1) == Step(StateAt(text, i), text[i]);
    assert LexAt(text, i + 1) == Next(LexAt(text, i), text, i);
  }

  lemma {:induction false} NothingMisread(text: string, i: nat)
    requires i <= |text| && ReadsRight(text)
    ensures forall j :: 0 <= j < i ==> !Misread(text, j)
  {
    if i > 0 {
      NothingMisread(text, i - 1);
      StaysInStep(text, i - 1);
      if Misread(text, i - 1) {
        MisreadShows(text, i - 1);
      }
    }
  }

  /** The scanner reads a document right, at every position, exactly when no comment has a quote or a brace in
      it and no multi-line string a quote of its own kind. */
  lemma ReadsRightIff(text: string)
    ensures ReadsRight(text) <==> forall i :: 0 <= i < |text| ==> !Misread(text, i)
  {
    if ReadsRight(text) {
      NothingMisread(text, |text|);
    }
    if forall i :: 0 <= i < |text| ==> !Misread(text, i) {
      forall i | 0 <= i <= |text|
        ensures SeesAlike(StateAt(text, i), LexAt(text, i))
      {
        StaysInStep(text, i);
      }
    }
  }

  // ----- What folding does to the document --------------------------------------------------------------------

  /** In a document read right, the newlines folded are those between the entries of inline tables, and those
      that end a comment in one. */
  lemma FoldableMeans(text: string, i: nat)
    requires ReadsRight(text) && i < |text|
    ensures Foldable(text, i) <==> TableNewline(text, i) || TableCommentEnd(text, i)
  {
    NothingMisread(text, |text|);
    StaysInStep(text, i);
  }

  /** So they are just the former exactly when no comment ends in an inline table. */
  lemma FoldsTableNewlinesIff(text: string)
    requires ReadsRight(text)
    ensures (forall i :: 0 <= i < |text| ==> (Foldable(text, i) <==> TableNewline(text, i)))
            <==> forall i :: 0 <= i < |text| ==> !TableCommentEnd(text, i)
  {
    forall i | 0 <= i < |text|
      ensures Foldable(text, i) <==> TableNewline(text, i) || TableCommentEnd(text, i)
    {
      FoldableMeans(text, i);
    }
  }

  lemma SameQuotes(text: string, out: string, i: nat, q: char)
    requires Collapses(text, out) && Quote(q)
    ensures Triple(out, i, q) == Triple(text, i, q) && Closes(out, i, q) == Closes(text, i, q)
  {
  }

  /** One character further, the folded document is read like the original unless a comment lost its end. */
  lemma OneMoreAlike(text: string, out: string, i: nat)
    requires Collapses(text, out) && i < |text| && LexAt(out, i) == LexAt(text, i)
    ensures LexAt(out, i + 1) == LexAt(text, i + 1) <==> !(Foldable(text, i) && LexAt(text, i).mode == Comment)
  {
    var l := LexAt(text, i);
    LexQuotes(text, i);
    assert LexAt(out, i + 1) == Next(l, out, i) && LexAt(text, i + 1) == Next(l, text, i);
    SameQuotes(text, out, i, '"');
    SameQuotes(text, out, i, '\'');
  }

  /** Every position of the two documents is read alike. */
  ghost predicate SameReading(text: string, out: string)
    requires |out| == |text|
  {
    forall i :: 0 <= i <= |text| ==> LexAt(out, i) == LexAt(text, i)
  }

  /** Folding keeps the reading of any document exactly when it takes no newline that ends a comment. */
  lemma KeepsReadingIff(text: string, out: string)
    requires Collapses(text, out)
    ensures SameReading(text, out)
            <==> forall i :: 0 <= i < |text| && Foldable(text, i) ==> LexAt(text, i).mode != Comment
  {
    if SameReading(text, out) {
      forall i | 0 <= i < |text| && Foldable(text, i)
        ensures LexAt(text, i).mode != Comment
      {
        assert LexAt(out, i) == LexAt(text, i) && LexAt(out, i + 1) == LexAt(text, i + 1);
        OneMoreAlike(text, out, i);
      }
    } else {
      var i :| 0 <= i <= |text| && LexAt(out, i) != LexAt(text, i);
      if forall j :: 0 <= j < |text| && Foldable(text, j) ==> LexAt(text, j).mode != Comment {
        ReadAlike(text, out, i);
      }
    }
  }

  lemma {:induction false} ReadAlike(text: string, out: string, i: nat)
    requires Collapses(text, out) && i <= |text|
    requires forall j :: 0 <= j < |text| && Foldable(text, j) ==> LexAt(text, j).mode != Comment
    ensures LexAt(out, i) == LexAt(text, i)
  {
    if i > 0 {
      ReadAlike(text, out, i - 1);
      OneMoreAlike(text, out, i - 1);
    }
  }

  /** A document that is read right and has no comment inside an inline table: the newlines between the entries
      of inline tables become spaces, everything else stays, and the document is read as before. */
  lemma FoldsFaithfully(text: string, out: string)
    requires Collapses(text, out) && ReadsRight(text)
    requires forall i :: 0 <= i < |text| ==> !TableCommentEnd(text, i)
    ensures forall i :: 0 <= i < |text| ==> out[i] == if TableNewline(text, i) then ' ' else text[i]
    ensures SameReading(text, out)
  {
    FoldsTableNewlinesIff(text);
    KeepsReadingIff(text, out);
  }

  // ----- Documents the scanner misreads -----------------------------------------------------------------------

  /** An opening brace in a comment: the end of the comment is folded, and the table header after it becomes
      part of the comment. */
  lemma BraceInComment()
    ensures var text, out := "# {\n[a]", "# { [a]";
            Collapses(text, out) && LexAt(text, 7).mode == Code && LexAt(out, 7).mode == Comment
  {
    var text, out := "# {\n[a]", "# { [a]";
    assert StateAt(text, 3) == Scan(1, false, ' ', false);
    assert LexAt(text, 3) == LexAt(out, 3) == Lex(Comment, 0);
    assert LexAt(text, 5) == Lex(Code, 0) && LexAt(out, 5) == Lex(Comment, 0);
  }

  /** An apostrophe in a comment: the rest of the document passes for a string, and the newline in the table
      stays. */
  lemma ApostropheInComment()
    ensures var text := "#'\n{\n}"; TableNewline(text, 4) && !Foldable(text, 4)
  {
  }

  /** A comment in an inline table: all is read right, and the closing brace becomes part of the comment. */
  lemma CommentInTable()
    ensures var text, out := "{#\n}", "{# }";
            && Collapses(text, out) && TableCommentEnd(text, 2)
            && LexAt(text, 4) == Lex(Code, 0) && LexAt(out, 4) == Lex(Comment, 1)
  {
    var text, out := "{#\n}", "{# }";
    assert StateAt(text, 2) == Scan(1, false, ' ', false);
    assert LexAt(text, 2) == LexAt(out, 2) == Lex(Comment, 1);
  }

  /** A quote in a multi-line string: a newline of the string is folded. */
  lemma QuoteInMultiLineString()
    ensures var text := "\"\"\" \"{\n\"\"\""; LexAt(text, 6).mode == Multi('"', false) && Foldable(text, 6)
  {
  }
}
