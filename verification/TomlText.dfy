/**
 The lexical structure of a TOML document, as far as comments, strings and braces go: comments run to the
 end of the line; basic strings know backslash escapes, literal strings do not; both come in a form between
 triple quotes, which is closed by the last three quotes of a run. (TOML forbids a newline in a string
 between single quotes; here such a string goes on to its closing quote.)
 */
module TomlText {

  /** What a position belongs to; `Delim` stands for the inside of a triple quote. */
  datatype Mode =
    | Code
    | Comment
    | Str(quote: char, escaped: bool)
    | Multi(quote: char, escaped: bool)
    | Delim(quote: char, left: nat, opening: bool)

  datatype Lex = Lex(mode: Mode, depth: nat)

  predicate Quote(c: char) {
    c == '"' || c == '\''
  }

  predicate Triple(text: string, i: nat, q: char) {
    i + 3 <= |text| && text[i] == text[i + 1] == text[i + 2] == q
  }

  /** Three quotes and no further one: the end of a multi-line string. */
  predicate Closes(text: string, i: nat, q: char) {
    Triple(text, i, q) && (i + 3 < |text| ==> text[i + 3] != q)
  }

  predicate Escapes(c: char, q: char) {
    c == '\\' && q == '"'
  }

  function Next(l: Lex, text: string, i: nat): Lex
    requires i < |text|
  {
    var c := text[i];
    match l.mode
    case Code =>
      if c == '#' then l.(mode := Comment)
      else if Quote(c) then l.(mode := if Triple(text, i, c) then Delim(c, 2, true) else Str(c, false))
      else if c == '{' then l.(depth := l.depth + 1)
      else if c == '}' then l.(depth := if l.depth == 0 then 0 else l.depth - 1)
      else l
    case Comment => if c == '\n' then l.(mode := Code) else l
    case Str(q, escaped) =>
      if escaped then l.(mode := Str(q, false))
      else if Escapes(c, q) then l.(mode := Str(q, true))
      else if c == q then l.(mode := Code)
      else l
    case Multi(q, escaped) =>
      if escaped then l.(mode := Multi(q, false))
      else if Escapes(c, q) then l.(mode := Multi(q, true))
      else if Closes(text, i, q) then l.(mode := Delim(q, 2, false))
      else l
    case Delim(q, left, opening) =>
      if left > 1 then l.(mode := Delim(q, left - 1, opening))
      else l.(mode := if opening then Multi(q, false) else Code)
  }

  /** How the document is read up to position `i`. */
  function LexAt(text: string, i: nat): Lex
    requires i <= |text|
  {
    if i == 0 then Lex(Code, 0) else Next(LexAt(text, i - 1), text, i - 1)
  }

  /** Strings are delimited by quotes, and the rest of a triple quote is quotes. */
  predicate Quoted(m: Mode, text: string, i: nat) {
    && ((m.Str? || m.Multi? || m.Delim?) ==> Quote(m.quote))
    && (m.Delim? ==> 1 <= m.left <= 2 && i + m.left <= |text| && text[i] == text[i + m.left - 1] == m.quote)
  }

  lemma {:induction false} LexQuotes(text: string, i: nat)
    requires i <= |text|
    ensures Quoted(LexAt(text, i).mode, text, i)
  {
    if i > 0 {
      LexQuotes(text, i - 1);
    }
  }

  /** A newline between the entries of an inline table. */
  predicate TableNewline(text: string, i: nat)
    requires i < |text|
  {
    text[i] == '\n' && LexAt(text, i).mode == Code && LexAt(text, i).depth > 0
  }

  /** A newline that ends a comment inside an inline table. */
  predicate TableCommentEnd(text: string, i: nat)
    requires i < |text|
  {
    text[i] == '\n' && LexAt(text, i).mode == Comment && LexAt(text, i).depth > 0
  }

  /** In a basic string a backslash hides a quote, so the string goes on over a number sign; in a literal string it
      does not, and the number sign starts a comment. */
  lemma Backslashes()
    ensures LexAt("\"\\\"#", 4).mode == Str('"', false)
    ensures LexAt("'\\'#", 4).mode == Comment
  {
  }

  /** A newline ends a comment and not a string between triple quotes; of four quotes the last three close one. */
  lemma LinesAndTripleQuotes()
    ensures LexAt("#{\n{", 4) == Lex(Code, 1)
    ensures LexAt("\'\'\'\n#", 5).mode == Multi('\'', false)
    ensures LexAt("\'\'\'\'\'\'\'", 7).mode == Code
  {
    assert LexAt("\'\'\'\n#", 3).mode == Multi('\'', false);
    assert LexAt("\'\'\'\'\'\'\'", 3).mode == Multi('\'', false);
    assert LexAt("\'\'\'\'\'\'\'", 4).mode == Multi('\'', false);
    assert LexAt("\'\'\'\'\'\'\'", 5).mode == Delim('\'', 2, false);
  }
}
