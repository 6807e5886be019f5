/**
 Character-level framing of a word: the word's characters are looked up in a
 character vocabulary and the resulting index sequence is delimited by the
 indices of the two reserved keys "START" and "END".

 The character vocabulary is a dictionary whose keys are strings: every
 ordinary key is a one-character string and the two reserved keys are the
 five- and three-character strings "START" and "END". A character `c` of a
 word is therefore looked up as the one-character string `[c]`, which can
 never collide with a reserved key.
 */
module Framing {

  datatype Option<T> = None | Some(value: T)

  /** The key a failed dictionary lookup reports (Python's KeyError). */
  datatype KeyError =
    | MissingWordIndex(index: int)   // idx2word has no entry for this index
    | MissingCharKey(key: string)    // char2idx has no entry for this key

  /** Reserved key marking the start of every character sequence. */
  const START: string := "START"
  /** Reserved key marking the end of every character sequence. */
  const END: string := "END"

  /** Every character of `word` has an index in the character vocabulary. */
  predicate HasChars(char2idx: map<string, int>, word: string)
  {
    forall j :: 0 <= j < |word| ==> [word[j]] in char2idx
  }

  /** Framing `word` performs no failing lookup. */
  predicate CanFrame(char2idx: map<string, int>, word: string)
  {
    START in char2idx && END in char2idx && HasChars(char2idx, word)
  }

  /** The index of each character of `word`, in order (the comprehension over `word`). */
  function CharIndices(char2idx: map<string, int>, word: string): (r: seq<int>)
    requires HasChars(char2idx, word)
    ensures |r| == |word|
    ensures forall j :: 0 <= j < |word| ==> r[j] == char2idx[[word[j]]]
  {
    if word == [] then []
    else [char2idx[[word[0]]]] + CharIndices(char2idx, word[1..])
  }

  /** The framed index sequence [START] + indices of the characters + [END]. */
  function FrameWord(char2idx: map<string, int>, word: string): (r: seq<int>)
    requires CanFrame(char2idx, word)
    ensures |r| == |word| + 2
    ensures r[0] == char2idx[START] && r[|r| - 1] == char2idx[END]
    ensures forall j :: 0 <= j < |word| ==> r[j + 1] == char2idx[[word[j]]]
    ensures r[1..|r| - 1] == CharIndices(char2idx, word)
  {
    [char2idx[START]] + CharIndices(char2idx, word) + [char2idx[END]]
  }

  /** The first character of `word` that has no index, if any. */
  function FirstMissingChar(char2idx: map<string, int>, word: string): (c: Option<char>)
    ensures c.None? <==> HasChars(char2idx, word)
    ensures c.Some? ==>
      [c.value] !in char2idx &&
      exists j :: 0 <= j < |word| && word[j] == c.value && HasChars(char2idx, word[..j])
  {
    if word == [] then None
    else if [word[0]] !in char2idx then
      assert HasChars(char2idx, word[..0]);
      Some(word[0])
    else
      var rest := FirstMissingChar(char2idx, word[1..]);
      if rest.Some? then
        ghost var j :| 0 <= j < |word[1..]| && word[1..][j] == rest.value && HasChars(char2idx, word[1..][..j]);
        assert word[..j + 1] == [word[0]] + word[1..][..j];
        assert HasChars(char2idx, word[..j + 1]);
        rest
      else
        assert forall j :: 1 <= j < |word| ==> word[j] == word[1..][j - 1];
        None
  }

  /**
   The missing key that framing `word` raises, if any. The lookups happen
   in the order START, then each character from left to right, then END;
   the first one that fails is reported.
   */
  function FrameError(char2idx: map<string, int>, word: string): (e: Option<KeyError>)
    ensures e.None? <==> CanFrame(char2idx, word)
    ensures e.Some? ==> e.value.MissingCharKey? && e.value.key !in char2idx
    ensures e == Some(MissingCharKey(START)) <==> START !in char2idx
    ensures START in char2idx && !HasChars(char2idx, word) ==>
      e == Some(MissingCharKey([FirstMissingChar(char2idx, word).value]))
    ensures e == Some(MissingCharKey(END)) <==> START in char2idx && HasChars(char2idx, word) && END !in char2idx
  {
    if START !in char2idx then Some(MissingCharKey(START))
    else match FirstMissingChar(char2idx, word)
      case Some(c) => Some(MissingCharKey([c]))
      case None => if END !in char2idx then Some(MissingCharKey(END)) else None
  }

  /** `idx2char` maps every index of `char2idx` back to its key. */
  predicate Inverts(idx2char: map<int, string>, char2idx: map<string, int>)
  {
    forall k :: k in char2idx ==> char2idx[k] in idx2char && idx2char[char2idx[k]] == k
  }

  /** Every index of `s` has an entry in `idx2char`. */
  predicate Decodable(idx2char: map<int, string>, s: seq<int>)
  {
    forall j :: 0 <= j < |s| ==> s[j] in idx2char
  }

  /** The string spelled by the indices `s`: the concatenation of their keys. */
  function DecodeChars(idx2char: map<int, string>, s: seq<int>): (w: string)
    requires Decodable(idx2char, s)
    ensures s == [] ==> w == ""
    ensures (forall j :: 0 <= j < |s| ==> |idx2char[s[j]]| == 1) ==> |w| == |s|
  {
    if s == [] then "" else idx2char[s[0]] + DecodeChars(idx2char, s[1..])
  }

  /** The word a framed sequence spells once START and END are stripped. */
  function Unframe(idx2char: map<int, string>, r: seq<int>): (w: string)
    requires |r| >= 2 && Decodable(idx2char, r[1..|r| - 1])
    ensures |r| == 2 ==> w == ""
  {
    DecodeChars(idx2char, r[1..|r| - 1])
  }

  /** Mapping the character indices back through the inverse vocabulary gives the word back. */
  lemma {:induction false} DecodeCharIndices(char2idx: map<string, int>, idx2char: map<int, string>, word: string)
    requires HasChars(char2idx, word) && Inverts(idx2char, char2idx)
    ensures Decodable(idx2char, CharIndices(char2idx, word))
    ensures DecodeChars(idx2char, CharIndices(char2idx, word)) == word
  {
    if word != [] {
      assert HasChars(char2idx, word[1..]) by {
        forall j | 0 <= j < |word[1..]| ensures [word[1..][j]] in char2idx {
          assert word[1..][j] == word[j + 1];
        }
      }
      DecodeCharIndices(char2idx, idx2char, word[1..]);
      var s := CharIndices(char2idx, word);
      assert s[1..] == CharIndices(char2idx, word[1..]);
      assert idx2char[s[0]] == [word[0]];
      assert [word[0]] + word[1..] == word;
    }
  }

  /** Round trip: stripping START/END and decoding a framed word reproduces the word. */
  lemma UnframeFrameWord(char2idx: map<string, int>, idx2char: map<int, string>, word: string)
    requires CanFrame(char2idx, word) && Inverts(idx2char, char2idx)
    ensures Decodable(idx2char, FrameWord(char2idx, word)[1..|word| + 1])
    ensures Unframe(idx2char, FrameWord(char2idx, word)) == word
  {
    DecodeCharIndices(char2idx, idx2char, word);
  }

  /** With an inverse vocabulary, distinct words have distinct framed sequences. */
  lemma FrameWordInjective(char2idx: map<string, int>, idx2char: map<int, string>, w1: string, w2: string)
    requires CanFrame(char2idx, w1) && CanFrame(char2idx, w2) && Inverts(idx2char, char2idx)
    ensures FrameWord(char2idx, w1) == FrameWord(char2idx, w2) <==> w1 == w2
  {
  }
}
