/**
 * The text of the values list that `createBulk` sends to PostgreSQL, built by
 * interpolating every code into `('<code>', 'inactive')` and joining the
 * tuples with ", ", and how the database reads that text back. A quoted
 * literal ends at the first single quote that is not doubled, and `--` starts
 * a comment running to the end of the line. A code holding a single quote
 * therefore changes the statement: it is refused as a syntax error or it
 * inserts other rows than the batch names.
 */
module BulkInsert {
  import opened Types
  import Repository

  /** One row of a `VALUES` list: the code and status literals. */
  datatype Tuple = Tuple(code: string, status: string)

  const Quote: char := '\''

  /** The tuple the source interpolates for one code. */
  function ValuesTuple(code: string): string {
    "('" + code + "', 'inactive')"
  }

  /** `codes.map(code => ...).join(', ')`. */
  function ValuesList(codes: seq<string>): string
    decreases |codes|
  {
    if codes == [] then ""
    else if |codes| == 1 then ValuesTuple(codes[0])
    else ValuesTuple(codes[0]) + ", " + ValuesList(codes[1..])
  }

  /** The rows a parameterised insert of the batch writes: every code verbatim, inactive. */
  function IntendedTuples(codes: seq<string>): (r: seq<Tuple>)
    ensures |r| == |codes|
    ensures forall k :: 0 <= k < |codes| ==> r[k] == Tuple(codes[k], "inactive")
    decreases |codes|
  {
    if codes == [] then [] else [Tuple(codes[0], "inactive")] + IntendedTuples(codes[1..])
  }

  /**
   * The repository's `CreateBulk` is the parameterised insert: the rows it
   * appends carry exactly the intended codes and the `inactive` status.
   */
  lemma CreateBulkIsParameterised(batch: seq<string>, firstId: nat, now: nat)
    ensures var rows := Repository.NewRows(batch, firstId, now);
      forall k :: 0 <= k < |batch| ==>
        Tuple(rows[k].code, StatusName(rows[k].status)) == IntendedTuples(batch)[k]
  {
  }

  /**
   * The body of a quoted literal whose opening quote was read: the characters
   * up to the closing quote, with a doubled quote read as one quote, and the
   * text after the closing quote; nothing when the literal is not closed.
   */
  function ReadLiteral(s: string): (r: Option<(string, string)>)
    ensures r.Some? ==> |r.value.1| < |s|
    decreases |s|
  {
    if s == [] then None
    else if s[0] == Quote then
      if |s| >= 2 && s[1] == Quote then
        match ReadLiteral(s[2..])
        case None => None
        case Some((v, rest)) => Some(([Quote] + v, rest))
      else Some(("", s[1..]))
    else
      match ReadLiteral(s[1..])
      case None => None
      case Some((v, rest)) => Some(([s[0]] + v, rest))
  }

  /** One `('<code>', '<status>')` tuple at the head of the text, and the text after it. */
  function ReadTuple(s: string): (r: Option<(Tuple, string)>)
    ensures r.Some? ==> |r.value.1| < |s|
  {
    if |s| < 2 || s[0] != '(' || s[1] != Quote then None
    else
      match ReadLiteral(s[2..])
      case None => None
      case Some((code, rest)) =>
        if |rest| < 3 || rest[..3] != ", '" then None
        else
          match ReadLiteral(rest[3..])
          case None => None
          case Some((status, tail)) =>
            if tail == [] || tail[0] != ')' then None
            else Some((Tuple(code, status), tail[1..]))
  }

  /** Text the statement ignores: nothing, or spaces and then a `--` comment to the end of the line. */
  predicate Ignored(s: string)
    decreases |s|
  {
    if s == [] then true
    else if s[0] == ' ' then Ignored(s[1..])
    else |s| >= 2 && s[..2] == "--" && '\n' !in s
  }

  /**
   * The tuples a values list reads as when every item is a tuple of two plain
   * quoted literals, or nothing when the text is not of that shape.
   * PostgreSQL reads `VALUES` items as expressions (`'x'||''`, `DEFAULT`,
   * string constants continued across a line break), which this reader does
   * not cover. So `None` stands for a syntax error only on the shapes the
   * lemmas below restrict to.
   */
  function ReadValues(s: string): (r: Option<seq<Tuple>>)
    decreases |s|
  {
    match ReadTuple(s)
    case None => None
    case Some((t, rest)) =>
      if Ignored(rest) then Some([t])
      else if |rest| >= 2 && rest[..2] == ", " then
        match ReadValues(rest[2..])
        case None => None
        case Some(ts) => Some([t] + ts)
      else None
  }

  /** A literal without quotes in it is read back up to its closing quote. */
  lemma {:induction false} ReadPlainLiteral(v: string, rest: string)
    requires Quote !in v
    requires rest == [] || rest[0] != Quote
    ensures ReadLiteral(v + [Quote] + rest) == Some((v, rest))
    decreases |v|
  {
    if v == [] {
      assert v + [Quote] + rest == [Quote] + rest;
    } else {
      var s := v + [Quote] + rest;
      assert s[0] == v[0] != Quote && s[1..] == v[1..] + [Quote] + rest;
      ReadPlainLiteral(v[1..], rest);
      assert [v[0]] + v[1..] == v;
    }
  }

  /** A tuple interpolated from a quote-free code reads back as that code, inactive. */
  lemma ReadPlainTuple(code: string, rest: string)
    requires Quote !in code
    ensures ReadTuple(ValuesTuple(code) + rest) == Some((Tuple(code, "inactive"), rest))
  {
    var s := ValuesTuple(code) + rest;
    var after := ", 'inactive')" + rest;
    assert s[2..] == code + [Quote] + after;
    ReadPlainLiteral(code, after);
    assert after[3..] == "inactive" + [Quote] + (")" + rest);
    ReadPlainLiteral("inactive", ")" + rest);
  }

  /**
   * With no single quote in any code the interpolated list is read as exactly
   * the rows a parameterised insert writes: the query as written is correct
   * on such batches.
   */
  lemma {:induction false} QuoteFreeValuesAsIntended(codes: seq<string>)
    requires codes != []
    requires forall k :: 0 <= k < |codes| ==> Quote !in codes[k]
    ensures ReadValues(ValuesList(codes)) == Some(IntendedTuples(codes))
    decreases |codes|
  {
    if |codes| == 1 {
      ReadPlainTuple(codes[0], "");
      assert ValuesTuple(codes[0]) + "" == ValuesList(codes);
      assert IntendedTuples(codes) == [Tuple(codes[0], "inactive")];
    } else {
      var tail := ", " + ValuesList(codes[1..]);
      ReadPlainTuple(codes[0], tail);
      assert ValuesList(codes) == ValuesTuple(codes[0]) + tail;
      assert tail[0] == ',' && tail[..2] == ", " && !Ignored(tail);
      assert tail[2..] == ValuesList(codes[1..]);
      assert forall k :: 0 <= k < |codes[1..]| ==> codes[1..][k] == codes[k + 1];
      QuoteFreeValuesAsIntended(codes[1..]);
    }
  }

  /**
   * As written, a code that closes the literal itself ends the tuple early: a
   * code `<v>', '<st>') --` is read as the row (`<v>`, `<st>`), so the batch
   * `X', 'active') --` inserts the code `X` with status `active` and no
   * custodian, where the parameterised insert stores the code verbatim and
   * inactive.
   */
  lemma InjectedTuple(v: string, st: string)
    requires Quote !in v && Quote !in st
    ensures var code := v + "', '" + st + "') --";
      && ReadValues(ValuesList([code])) == Some([Tuple(v, st)])
      && IntendedTuples([code]) == [Tuple(code, "inactive")]
  {
    var code := v + "', '" + st + "') --";
    ReadInjectedTuple(v, st);
    TrailingCommentIgnored();
    assert IntendedTuples([code]) == [Tuple(code, "inactive")];
  }

  /** What is left of the interpolated tuple after the injected one: a space and a comment. */
  const TrailingComment: string := " --" + "', 'inactive')"

  lemma TrailingCommentIgnored()
    ensures Ignored(TrailingComment)
  {
    var c := TrailingComment;
    assert c[0] == ' ' && c[1..][..2] == "--" && '\n' !in c[1..];
    assert Ignored(c[1..]);
  }

  /** The injected code closes the code literal, supplies a status literal and closes the tuple. */
  lemma ReadInjectedTuple(v: string, st: string)
    requires Quote !in v && Quote !in st
    ensures ReadTuple(ValuesList([v + "', '" + st + "') --"])) == Some((Tuple(v, st), TrailingComment))
  {
    var code := v + "', '" + st + "') --";
    var tail := ")" + TrailingComment;
    var rest := ", '" + st + [Quote] + tail;
    var s := ValuesList([code]);
    assert s == "('" + code + "', 'inactive')";
    assert s[2..] == v + [Quote] + rest;
    ReadPlainLiteral(v, rest);
    assert rest[..3] == ", '" && rest[3..] == st + [Quote] + tail;
    ReadPlainLiteral(st, tail);
    assert tail[1..] == TrailingComment;
  }

  /** No `--` in the text, so no line comment starts in it. */
  predicate NoLineComment(s: string) {
    forall i :: 0 <= i < |s| - 1 ==> !(s[i] == '-' && s[i + 1] == '-')
  }

  /**
   * As written, a code holding exactly one quote, with no `--` after it,
   * closes the literal early and what follows it is not the rest of a tuple.
   * The statement then holds five quotes, an odd number, and no comment to
   * hide one, so a string literal is left open and PostgreSQL refuses the
   * statement.
   * `O'Brien` is such a code; the parameterised insert stores it.
   */
  lemma LoneQuote(a: string, b: string)
    requires Quote !in a && Quote !in b
    requires NoLineComment(b)
    requires b != [] && b[0] != ','
    ensures var code := a + [Quote] + b;
      && ReadValues(ValuesList([code])) == None
      && IntendedTuples([code]) == [Tuple(code, "inactive")]
  {
    var code := a + [Quote] + b;
    var rest := b + "', 'inactive')";
    var s := ValuesList([code]);
    assert s == "('" + code + "', 'inactive')";
    assert s[2..] == a + [Quote] + rest;
    ReadPlainLiteral(a, rest);
    assert rest[0] == b[0];
    assert IntendedTuples([code]) == [Tuple(code, "inactive")];
  }

  /** The two batches of the finding: `X', 'active') --` and `O'Brien`. */
  lemma QuoteExamples()
    ensures ReadValues(ValuesList(["X', 'active') --"])) == Some([Tuple("X", "active")])
    ensures ReadValues(ValuesList(["O'Brien"])) == None
  {
    ActiveInjection();
    OBrienRefused();
  }

  /** The batch `X', 'active') --` inserts `X` as active. */
  lemma ActiveInjection()
    ensures ReadValues(ValuesList(["X', 'active') --"])) == Some([Tuple("X", "active")])
  {
    InjectedTuple("X", "active");
    assert "X" + "', '" + "active" + "') --" == "X', 'active') --";
  }

  /** The batch `O'Brien` is refused. */
  lemma OBrienRefused()
    ensures ReadValues(ValuesList(["O'Brien"])) == None
  {
    var b := "Brien";
    assert Quote !in b && NoLineComment(b);
    LoneQuote("O", b);
    assert "O" + [Quote] + b == "O'Brien";
  }
}
