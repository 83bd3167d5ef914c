/** Line tokenizer: the timestamp prefix of a log line and the brace balance of a fragment. */
module Tokenizer {
  import opened Text

  /** The marker that closes the `[YYYY-mm-dd HH:MM:SS.mmm]` prefix. */
  const TsMarker: string := "] "

  /** Everything after the FIRST `"] "`, or the line itself when the marker is absent. */
  function StripTsPrefix(line: string): (r: string)
    ensures |r| <= |line| && r == line[|line| - |r|..]
  {
    match Find(line, TsMarker)
    case Some(rb) => line[rb + 2..]
    case None => line
  }

  /** A line without the marker is kept whole; otherwise what remains is exactly the
      text after the first occurrence of the marker. */
  lemma StripTsPrefixSpec(line: string)
    ensures (forall j :: !OccursAt(line, TsMarker, j)) ==> StripTsPrefix(line) == line
    ensures (exists i :: OccursAt(line, TsMarker, i)) ==>
      var i := |line| - |StripTsPrefix(line)| - 2;
      OccursAt(line, TsMarker, i) && forall j :: 0 <= j < i ==> !OccursAt(line, TsMarker, j)
  {
    FindSpec(line, TsMarker);
  }

  /** A line's content: timestamp prefix removed, then stripped (`strip()`). */
  function Content(raw: string): string
  {
    Strip(StripTsPrefix(raw))
  }

  /** Opening minus closing braces in a fragment. */
  function BraceDelta(s: string): int
  {
    Count(s, '{') - Count(s, '}')
  }

  /** The balance of a concatenation is the sum of the balances, so a running
      counter updated fragment by fragment equals the balance of the whole buffer. */
  lemma BraceDeltaConcat(a: string, b: string)
    ensures BraceDelta(a + b) == BraceDelta(a) + BraceDelta(b)
  {
    CountConcat(a, b, '{');
    CountConcat(a, b, '}');
  }
}
