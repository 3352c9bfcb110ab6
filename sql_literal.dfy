/** SQL character string literals under the quote-doubling rule of the SQL standard
    (ISO/IEC 9075-2, <character string literal>): between the delimiting quotes two
    consecutive quotes stand for one quote character, and a lone quote ends the literal.
    This reader is the independent partner of the escape the database helpers apply. */
module SqlLiteral {
  import opened Wrappers

  const Quote: char := '\''

  /** A literal read so far: the characters it denotes and the text after its closing quote. */
  type Reading = Option<(string, string)>

  /** One more denoted character in front of a reading. */
  function Prepend(c: char, r: Reading): (p: Reading)
    ensures p.Some? <==> r.Some?
    ensures p.Some? ==> p.value == ([c] + r.value.0, r.value.1)
  {
    if r.Some? then Some(([c] + r.value.0, r.value.1)) else None
  }

  /** Reads the body of a literal whose opening quote is already consumed: what it denotes and
      the text left after the closing quote, or None when the text ends before a closing quote. */
  function ReadBody(t: string): (r: Reading)
    ensures r.Some? ==> |r.value.1| < |t| && r.value.1 == t[|t| - |r.value.1|..]
  {
    if t == [] then None
    else if t[0] == Quote then
      if |t| >= 2 && t[1] == Quote then Prepend(Quote, ReadBody(t[2..]))
      else Some(([], t[1..]))
    else Prepend(t[0], ReadBody(t[1..]))
  }

  /** Reads one literal at the start of t: None unless t starts with a quote and the literal
      is closed. */
  function ReadLiteral(t: string): (r: Reading)
    ensures r.Some? ==> |t| > 0 && t[0] == Quote
    ensures r.Some? ==> |r.value.1| < |t| - 1 && r.value.1 == t[|t| - |r.value.1|..]
  {
    if t != [] && t[0] == Quote then ReadBody(t[1..]) else None
  }
}
