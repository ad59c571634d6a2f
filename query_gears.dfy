/**
 * `str2bool` of `query_gears.py`: the parser for the `-config` flag, which reads a word
 * as a truth value regardless of letter case.
 */
module QueryGears {
  import opened Cells

  /** The words read as true, in lower case. */
  const TrueWords: seq<string> := ["yes", "true", "t", "y", "1"]

  /** The words read as false, in lower case. */
  const FalseWords: seq<string> := ["no", "false", "f", "n", "0"]

  /** The message of the `ArgumentTypeError` raised for any other word. */
  const BooleanExpected: string := "Boolean value expected."

  /** No word is read both ways. */
  lemma WordsDisjoint()
    ensures forall w :: w in TrueWords ==> w !in FalseWords
  {
  }

  /** `str2bool`: the lower-cased word is looked up among the true words, then the false words. */
  function Str2Bool(v: string): (r: Result<bool>)
    ensures r.Ok? <==> Lower(v) in TrueWords || Lower(v) in FalseWords
    ensures r.Ok? ==> (r.value <==> Lower(v) !in FalseWords)
    ensures r.Err? ==> r.error == BooleanExpected
  {
    WordsDisjoint();
    if Lower(v) in TrueWords then Ok(true)
    else if Lower(v) in FalseWords then Ok(false)
    else Err(BooleanExpected)
  }

  /** Two spellings that differ only in letter case are read alike. */
  lemma Str2BoolCaseInsensitive(v: string, w: string)
    requires Lower(v) == Lower(w)
    ensures Str2Bool(v) == Str2Bool(w)
  {
  }

  /** Lower-casing the word first changes nothing. */
  lemma Str2BoolOfLower(v: string)
    ensures Str2Bool(Lower(v)) == Str2Bool(v)
  {
    LowerIdempotent(v);
  }

  /** The flag's default, `'False'`, is read as false; Python's other spelling `'True'` as true. */
  lemma Str2BoolDefaults()
    ensures Str2Bool("False") == Ok(false)
    ensures Str2Bool("True") == Ok(true)
  {
    assert Lower("False") == "false";
    assert Lower("True") == "true";
  }

  /** Upper-case abbreviations are accepted; a word outside both lists is refused. */
  lemma Str2BoolExamples()
    ensures Str2Bool("Y") == Ok(true)
    ensures Str2Bool("N") == Ok(false)
    ensures Str2Bool("maybe") == Err(BooleanExpected)
  {
    assert Lower("Y") == "y";
    assert Lower("N") == "n";
    assert Lower("maybe") == "maybe";
  }
}
