/**
 The dataset of words: the word vocabulary (word to index, index to word,
 one embedding row per index), the character vocabulary, and the framed
 character-index sequence of every vocabulary word, built once when the
 dataset is constructed and only read afterwards.
 */
module Dataset {
  import opened Framing

  /** One retrieved sample: a word, its framed index sequence and its embedding row. */
  datatype Sample<E> = Sample(word: string, indexedWord: seq<int>, embedding: E)

  /**
   Construction raises no KeyError: each index below the vocabulary size
   has a word, and that word can be framed.
   */
  predicate Buildable(word2idx: map<string, int>, idx2word: map<int, string>, char2idx: map<string, int>)
  {
    forall i :: 0 <= i < |word2idx| ==> i in idx2word && CanFrame(char2idx, idx2word[i])
  }

  /** The KeyError that processing vocabulary index `i` raises, if any. */
  function WordError(idx2word: map<int, string>, char2idx: map<string, int>, i: int): (e: Option<KeyError>)
    ensures e.None? <==> i in idx2word && CanFrame(char2idx, idx2word[i])
    ensures i !in idx2word ==> e == Some(MissingWordIndex(i))
    ensures e.Some? && e.value.MissingCharKey? ==> i in idx2word && e.value.key !in char2idx
  {
    if i !in idx2word then Some(MissingWordIndex(i)) else FrameError(char2idx, idx2word[i])
  }

  /** The KeyError raised by the first failing index among `i .. n-1`, if any. */
  function FirstErrorFrom(idx2word: map<int, string>, char2idx: map<string, int>, i: nat, n: nat): (e: Option<KeyError>)
    decreases n - i
    ensures e.None? <==> forall k :: i <= k < n ==> WordError(idx2word, char2idx, k).None?
    ensures e.Some? ==>
      exists k :: i <= k < n && e == WordError(idx2word, char2idx, k) &&
        forall m :: i <= m < k ==> WordError(idx2word, char2idx, m).None?
  {
    if i >= n then None
    else
      var here := WordError(idx2word, char2idx, i);
      if here.Some? then here else FirstErrorFrom(idx2word, char2idx, i + 1, n)
  }

  /**
   The KeyError that the construction loop raises, if any: the error of the
   first index whose word is missing or cannot be framed.
   */
  function ConstructionError(word2idx: map<string, int>, idx2word: map<int, string>, char2idx: map<string, int>): (e: Option<KeyError>)
    ensures e.None? <==> Buildable(word2idx, idx2word, char2idx)
    ensures e.Some? ==>
      exists k :: 0 <= k < |word2idx| && e == WordError(idx2word, char2idx, k) &&
        forall m :: 0 <= m < k ==> WordError(idx2word, char2idx, m).None?
    ensures e.Some? && e.value.MissingWordIndex? ==>
      0 <= e.value.index < |word2idx| && e.value.index !in idx2word
    ensures e.Some? && e.value.MissingCharKey? ==> e.value.key !in char2idx
  {
    assert forall k :: 0 <= k < |word2idx| ==>
      (WordError(idx2word, char2idx, k).None? <==> k in idx2word && CanFrame(char2idx, idx2word[k]));
    FirstErrorFrom(idx2word, char2idx, 0, |word2idx|)
  }

  class WordsDataset<E> {
    const word2idx: map<string, int>
    const idx2word: map<int, string>
    const embed: seq<E>
    const char2idx: map<string, int>
    const idx2char: map<int, string>
    var indexedWords: seq<seq<int>>

    /** One framed sequence per vocabulary index, the i-th built from idx2word[i]. */
    ghost predicate Valid()
      reads this
    {
      && Buildable(word2idx, idx2word, char2idx)
      && |indexedWords| == |word2idx|
      && forall i :: 0 <= i < |indexedWords| ==> indexedWords[i] == FrameWord(char2idx, idx2word[i])
    }

    /** Takes the in-memory tables and frames every vocabulary word in index order. */
    constructor (word2idx: map<string, int>, idx2word: map<int, string>, embed: seq<E>,
                 char2idx: map<string, int>, idx2char: map<int, string>)
      requires Buildable(word2idx, idx2word, char2idx)
      ensures this.word2idx == word2idx && this.idx2word == idx2word && this.embed == embed
      ensures this.char2idx == char2idx && this.idx2char == idx2char
      ensures Valid()
      ensures |indexedWords| == |word2idx|
      ensures forall i :: 0 <= i < |word2idx| ==>
        |indexedWords[i]| == |idx2word[i]| + 2 &&
        indexedWords[i][0] == char2idx[START] &&
        indexedWords[i][|indexedWords[i]| - 1] == char2idx[END] &&
        indexedWords[i][1..|indexedWords[i]| - 1] == CharIndices(char2idx, idx2word[i])
    {
      this.word2idx := word2idx;
      this.idx2word := idx2word;
      this.embed := embed;
      this.char2idx := char2idx;
      this.idx2char := idx2char;
      indexedWords := [];
      new;
      var i := 0;
      while i < |word2idx|
        invariant 0 <= i <= |word2idx|
        invariant |indexedWords| == i
        invariant forall k :: 0 <= k < i ==> indexedWords[k] == FrameWord(char2idx, idx2word[k])
      {
        var word := idx2word[i];
        var indexedWord := FrameWord(char2idx, word);
        indexedWords := indexedWords + [indexedWord];
        i := i + 1;
      }
    }

    /** The number of samples: the vocabulary size, which is the number of framed words. */
    function Len(): (n: nat)
      reads this
      requires Valid()
      ensures n == |indexedWords|
      ensures forall i :: 0 <= i < n ==> i in idx2word
    {
      |word2idx|
    }

    /**
     The sample at `idx`: its word, that word's framed sequence and its
     embedding row.
     */
    function GetItem(idx: nat): (s: Sample<E>)
      reads this
      requires Valid() && idx < Len() && idx < |embed|
      ensures s.word == idx2word[idx] && s.indexedWord == indexedWords[idx] && s.embedding == embed[idx]
      ensures CanFrame(char2idx, s.word) && s.indexedWord == FrameWord(char2idx, s.word)
      ensures |s.indexedWord| == |s.word| + 2
      ensures Inverts(idx2char, char2idx) ==> Unframe(idx2char, s.indexedWord) == s.word
    {
      var s := Sample(idx2word[idx], indexedWords[idx], embed[idx]);
      assert Inverts(idx2char, char2idx) ==> Unframe(idx2char, s.indexedWord) == s.word by {
        if Inverts(idx2char, char2idx) {
          UnframeFrameWord(char2idx, idx2char, s.word);
        }
      }
      s
    }
  }
}
