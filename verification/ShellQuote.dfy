/** Quoting a word for a POSIX shell (crates/cli/src/lib.rs), checked against a
    reader of shell words that follows section 2.2 (Quoting) of the POSIX Shell
    Command Language. */
module ShellQuote {
  import opened Basics

  const SINGLE: char := '\''
  const DOUBLE: char := '\"'

  // ----- The program's side ------------------------------------------------------

  predicate IsPlain(c: char) {
    'a' <= c <= 'z' || 'A' <= c <= 'Z' || '0' <= c <= '9' || c in "_-./"
  }

  predicate AllPlain(value: string) { forall i :: 0 <= i < |value| ==> IsPlain(value[i]) }

  /** Each single quote becomes: close, a quoted single quote, open again. */
  function Escaped(value: string): string {
    if value == "" then ""
    else (if value[0] == SINGLE then [SINGLE, DOUBLE, SINGLE, DOUBLE, SINGLE] else [value[0]]) + Escaped(value[1..])
  }

  function Quote(value: string): string {
    if value != "" && AllPlain(value) then value else [SINGLE] + Escaped(value) + [SINGLE]
  }

  function ConnectTarget(value: string): string {
    if value != "" && value[0] == '-' then "-- " + Quote(value) else Quote(value)
  }

  // ----- The shell's side --------------------------------------------------------

  datatype Context = Between | Bare | InSingle | InDouble

  /** The words read so far, and the one being read. */
  datatype Reader = Reader(context: Context, words: seq<string>, word: string)

  /** The next character. None where the shell does something other than reading a
      literal word: an operator, a comment, an expansion, a pattern, an escape. */
  function Read(r: Reader, c: char): Option<Reader> {
    match r.context
    case InSingle => Some(if c == SINGLE then r.(context := Bare) else r.(word := r.word + [c]))
    case InDouble =>
      if c == DOUBLE then Some(r.(context := Bare))
      else if c == '$' || c == '`' || c == '\\' then None
      else Some(r.(word := r.word + [c]))
    case _ =>
      if c == SINGLE then Some(r.(context := InSingle))
      else if c == DOUBLE then Some(r.(context := InDouble))
      else if c == ' ' || c == '\t' || c == '\n' then
        Some(if r.context.Bare? then Reader(Between, r.words + [r.word], "") else r)
      else if IsSpecial(c, r.context.Between?) then None
      else Some(r.(context := Bare, word := r.word + [c]))
  }

  /** Characters that mean something to the shell when they are not quoted; some
      only at the start of a word. */
  predicate IsSpecial(c: char, atStart: bool) {
    c in "|&;<>()$`\\*?[" || (atStart && c in "#~")
  }

  function ReadAll(r: Reader, text: string): Option<Reader>
    decreases |text|
  {
    if text == "" then Some(r)
    else
      match Read(r, text[0])
      case None => None
      case Some(next) => ReadAll(next, text[1..])
  }

  /** The words of a command line, if it is nothing but literal words. */
  function Words(text: string): Option<seq<string>> {
    match ReadAll(Reader(Between, [], ""), text)
    case None => None
    case Some(r) =>
      match r.context
      case Between => Some(r.words)
      case Bare => Some(r.words + [r.word])
      case _ => None
  }

  // ----- Round trip --------------------------------------------------------------

  lemma {:induction false} ReadsOn(r: Reader, a: string, b: string)
    ensures ReadAll(r, a + b) == match ReadAll(r, a) case None => None case Some(next) => ReadAll(next, b)
    decreases |a|
  {
    if a == "" {
      assert a + b == b;
    } else {
      assert (a + b)[1..] == a[1..] + b;
      var next := Read(r, a[0]);
      if next.Some? { ReadsOn(next.value, a[1..], b); }
    }
  }

  lemma {:induction false} ReadsPlain(r: Reader, value: string)
    requires value != "" && AllPlain(value) && (r.context.Bare? || r.context.Between?)
    ensures ReadAll(r, value) == Some(r.(context := Bare, word := r.word + value))
    decreases |value|
  {
    var next := r.(context := Bare, word := r.word + [value[0]]);
    assert Read(r, value[0]) == Some(next);
    if |value| > 1 { ReadsPlain(next, value[1..]); } else { assert value == [value[0]] && value[1..] == ""; }
    assert r.word + [value[0]] + value[1..] == r.word + value;
  }

  /** From inside single quotes, the escaped text adds exactly the value. */
  lemma {:induction false} ReadsEscaped(r: Reader, value: string)
    requires r.context.InSingle?
    ensures ReadAll(r, Escaped(value)) == Some(r.(word := r.word + value))
    decreases |value|
  {
    if value == "" {
      assert r.word + value == r.word;
    } else {
      var next := r.(word := r.word + [value[0]]);
      var piece := if value[0] == SINGLE then [SINGLE, DOUBLE, SINGLE, DOUBLE, SINGLE] else [value[0]];
      ReadsPiece(r, value[0]);
      ReadsOn(r, piece, Escaped(value[1..]));
      ReadsEscaped(next, value[1..]);
      assert r.word + [value[0]] + value[1..] == r.word + value;
    }
  }

  lemma ReadsPiece(r: Reader, c: char)
    requires r.context.InSingle?
    ensures ReadAll(r, if c == SINGLE then [SINGLE, DOUBLE, SINGLE, DOUBLE, SINGLE] else [c]) ==
      Some(r.(word := r.word + [c]))
  {
    if c == SINGLE {
      ReadsOn(r, [SINGLE], [DOUBLE, SINGLE, DOUBLE, SINGLE]);
      var bare := r.(context := Bare);
      ReadsOn(bare, [DOUBLE], [SINGLE, DOUBLE, SINGLE]);
      var double := r.(context := InDouble);
      ReadsOn(double, [SINGLE], [DOUBLE, SINGLE]);
      var added := double.(word := r.word + [c]);
      ReadsOn(added, [DOUBLE], [SINGLE]);
      assert [SINGLE] + [DOUBLE, SINGLE, DOUBLE, SINGLE] == [SINGLE, DOUBLE, SINGLE, DOUBLE, SINGLE];
      assert [DOUBLE] + [SINGLE, DOUBLE, SINGLE] == [DOUBLE, SINGLE, DOUBLE, SINGLE];
      assert [SINGLE] + [DOUBLE, SINGLE] == [SINGLE, DOUBLE, SINGLE];
      assert [DOUBLE] + [SINGLE] == [DOUBLE, SINGLE];
    }
  }

  /** Reading a quoted value at the start of a word adds the value to it. */
  lemma ReadsQuoted(r: Reader, value: string)
    requires r.context.Between? && r.word == ""
    ensures ReadAll(r, Quote(value)) == Some(r.(context := Bare, word := value))
  {
    if value != "" && AllPlain(value) {
      ReadsPlain(r, value);
      assert "" + value == value;
    } else {
      var quoting := r.(context := InSingle);
      ReadsOn(r, [SINGLE], Escaped(value) + [SINGLE]);
      assert [SINGLE] + (Escaped(value) + [SINGLE]) == Quote(value);
      ReadsOn(quoting, Escaped(value), [SINGLE]);
      ReadsEscaped(quoting, value);
      assert "" + value == value;
    }
  }

  /** A quoted value is read back as exactly one word, the value itself. */
  lemma QuoteRoundTrip(value: string)
    ensures Words(Quote(value)) == Some([value])
  {
    ReadsQuoted(Reader(Between, [], ""), value);
    assert [] + [value] == [value];
  }

  /** Quoted values on one line are read back one by one. */
  lemma {:induction false} QuotedWordsRoundTrip(values: seq<string>)
    ensures Words(Joined(values)) == Some(values)
  {
    ReadsJoined(Reader(Between, [], ""), values);
    assert [] + values == values;
  }

  function Joined(values: seq<string>): string {
    if values == [] then "" else Quote(values[0]) + " " + Joined(values[1..])
  }

  lemma ReadsWord(r: Reader, value: string)
    requires r.context.Between? && r.word == ""
    ensures ReadAll(r, Quote(value) + " ") == Some(r.(words := r.words + [value]))
  {
    ReadsQuoted(r, value);
    ReadsOn(r, Quote(value), " ");
    var bare := r.(context := Bare, word := value);
    assert Read(bare, ' ') == Some(r.(words := r.words + [value]));
    assert " "[1..] == "";
  }

  lemma {:induction false} ReadsJoined(r: Reader, values: seq<string>)
    requires r.context.Between? && r.word == ""
    ensures ReadAll(r, Joined(values)) == Some(r.(words := r.words + values))
    decreases |values|
  {
    if values == [] {
      assert r.words + values == r.words;
    } else {
      var next := r.(words := r.words + [values[0]]);
      ReadsWord(r, values[0]);
      ReadsJoined(next, values[1..]);
      ReadsOn(r, Quote(values[0]) + " ", Joined(values[1..]));
      assert next.words + values[1..] == r.words + values;
    }
  }

  /** A target is one operand: it is either not shaped like an option, or it
      follows the word that ends the options. */
  lemma ConnectTargetRoundTrip(value: string)
    ensures Words(ConnectTarget(value)) == Some(if value != "" && value[0] == '-' then ["--", value] else [value])
  {
    if value != "" && value[0] == '-' {
      var start, rest := Reader(Between, [], ""), Reader(Between, [] + ["--"], "");
      assert Quote("--") + " " == "-- ";
      ReadsWord(start, "--");
      ReadsOn(start, "-- ", Quote(value));
      ReadsQuoted(rest, value);
      assert [] + ["--"] + [value] == ["--", value];
    } else {
      QuoteRoundTrip(value);
    }
  }
}
