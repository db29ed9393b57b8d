/**
 * The password policy of `RecordIserv::new`: a `chbs` scheme with two words
 * taken from the embedded word list, joined by "-", never capitalised.
 * The random choice of the two words is an input here (a `Draw`).
 */
module Passphrase {
  import opened Text

  const WordCount: nat := 2
  const Separator: string := "-"

  /** The word list: one entry per line of the embedded word file. */
  function WordList(wordFile: string): (words: seq<string>)
    ensures forall k :: 0 <= k < |words| ==> !Contains(words[k], "\n")
    ensures words == [] <==> wordFile == ""
  {
    Lines(wordFile)
  }

  /** The positions in the word list that the random sampler picked, first word first. */
  datatype Draw = Draw(first: nat, second: nat)

  predicate ValidDraw(words: seq<string>, draw: Draw) {
    draw.first < |words| && draw.second < |words|
  }

  /** `p` is two entries of `words` (possibly the same one twice) joined by the separator. */
  predicate IsPassphrase(p: string, words: seq<string>) {
    exists i, j | 0 <= i < |words| && 0 <= j < |words| :: p == words[i] + Separator + words[j]
  }

  /** `scheme.generate()` for the drawn positions. */
  function Generate(words: seq<string>, draw: Draw): (password: string)
    requires ValidDraw(words, draw)
    ensures IsPassphrase(password, words)
    ensures |password| == |words[draw.first]| + 1 + |words[draw.second]|
  {
    words[draw.first] + Separator + words[draw.second]
  }

  /**
   * When no word contains the separator, splitting a password at "-" gives
   * back exactly the two drawn words, in the order drawn: nothing was
   * capitalised or otherwise altered.
   */
  lemma {:induction false} GenerateSplitsIntoWords(words: seq<string>, draw: Draw)
    requires ValidDraw(words, draw)
    requires forall k :: 0 <= k < |words| ==> !Contains(words[k], Separator)
    ensures Split(Generate(words, draw), Separator) == [words[draw.first], words[draw.second]]
    ensures |Split(Generate(words, draw), Separator)| == WordCount
  {
    var w1, w2 := words[draw.first], words[draw.second];
    assert Unbordered(Separator);
    SplitAfterFirst(w1, Separator, w2);
    SplitWithout(w2, Separator);
  }
}
