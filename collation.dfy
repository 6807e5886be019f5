/**
 Collation of retrieved samples into one training batch: the samples are
 stably sorted by descending word length, and the batch holds the words and
 the embedding rows in that order together with the decoder input (each
 framed sequence without its last index) and the decoder target (each
 framed sequence without its first index). The packing of the two lists of
 sequences and the stacking of the embedding rows into a tensor are not
 part of this model.
 */
module Collation {
  import opened Framing
  import opened Dataset

  /** The collated batch, stopped before the sequences are packed. */
  datatype Batch<E> = Batch(
    words: seq<string>,
    embeddings: seq<E>,
    inputWords: seq<seq<int>>,
    outputWords: seq<seq<int>>)

  /** Word lengths never increase from left to right. */
  predicate SortedByLength<E>(s: seq<Sample<E>>)
  {
    forall i, j :: 0 <= i < j < |s| ==> |s[i].word| >= |s[j].word|
  }

  /** The samples of `s` whose word has exactly `n` characters, in their order in `s`. */
  function WithLength<E>(s: seq<Sample<E>>, n: nat): (r: seq<Sample<E>>)
  {
    if s == [] then []
    else (if |s[0].word| == n then [s[0]] else []) + WithLength(s[1..], n)
  }

  /**
   `r` keeps, for every word length, the samples of `s` of that length in
   their original relative order: the defining property of a stable sort by
   length.
   */
  ghost predicate SameLengthClasses<E>(r: seq<Sample<E>>, s: seq<Sample<E>>)
  {
    forall n: nat :: WithLength(r, n) == WithLength(s, n)
  }

  /** The words of the samples, in order. */
  function WordsOf<E>(s: seq<Sample<E>>): (w: seq<string>)
    ensures |w| == |s| && forall k :: 0 <= k < |s| ==> w[k] == s[k].word
  {
    seq(|s|, k requires 0 <= k < |s| => s[k].word)
  }

  lemma {:induction false} WithLengthAppend<E>(a: seq<Sample<E>>, b: seq<Sample<E>>, n: nat)
    ensures WithLength(a + b, n) == WithLength(a, n) + WithLength(b, n)
  {
    if a == [] {
      assert a + b == b;
    } else {
      assert (a + b)[0] == a[0] && (a + b)[1..] == a[1..] + b;
      WithLengthAppend(a[1..], b, n);
    }
  }

  lemma {:induction false} WithLengthShorter<E>(s: seq<Sample<E>>, n: nat)
    requires forall k :: 0 <= k < |s| ==> |s[k].word| < n
    ensures WithLength(s, n) == []
  {
    if s != [] {
      WithLengthShorter(s[1..], n);
    }
  }

  /**
   Places `x` after the leading samples of `r` whose word is at least as long
   as x's word; inserted this way, a later sample follows every earlier one of
   equal length.
   */
  function Insert<E>(x: Sample<E>, r: seq<Sample<E>>): (r': seq<Sample<E>>)
    ensures |r'| == |r| + 1
    ensures r'[0] == x || (r != [] && r'[0] == r[0])
  {
    if r == [] then [x]
    else if |r[0].word| >= |x.word| then [r[0]] + Insert(x, r[1..])
    else [x] + r
  }

  /** Inserting adds exactly `x` to the multiset of samples. */
  lemma {:induction false} InsertPermutes<E>(x: Sample<E>, r: seq<Sample<E>>)
    ensures multiset(Insert(x, r)) == multiset(r) + multiset{x}
  {
    if r != [] && |r[0].word| >= |x.word| {
      InsertPermutes(x, r[1..]);
      assert r == [r[0]] + r[1..];
    }
  }

  /** Inserting into a sequence sorted by length keeps it sorted. */
  lemma {:induction false} InsertSorted<E>(x: Sample<E>, r: seq<Sample<E>>)
    requires SortedByLength(r)
    ensures SortedByLength(Insert(x, r))
  {
    if r != [] && |r[0].word| >= |x.word| {
      var rest := Insert(x, r[1..]);
      InsertSorted(x, r[1..]);
      assert |rest[0].word| <= |r[0].word|;
      assert Insert(x, r) == [r[0]] + rest;
    }
  }

  /** The class of one sample is itself or nothing. */
  lemma WithLengthSingle<E>(x: Sample<E>, n: nat)
    ensures WithLength([x], n) == if |x.word| == n then [x] else []
  {
  }

  /** Inserting behind the head leaves the head's contribution in front. */
  lemma InsertBehindWithLength<E>(x: Sample<E>, r: seq<Sample<E>>, n: nat, xs: seq<Sample<E>>)
    requires r != [] && |r[0].word| >= |x.word|
    requires WithLength(Insert(x, r[1..]), n) == WithLength(r[1..], n) + xs
    ensures WithLength(Insert(x, r), n) == WithLength(r, n) + xs
  {
  }

  /** Inserting in front of strictly shorter samples. */
  lemma InsertFrontWithLength<E>(x: Sample<E>, r: seq<Sample<E>>, n: nat)
    requires forall k :: 0 <= k < |r| ==> |r[k].word| < |x.word|
    ensures WithLength([x] + r, n) == WithLength(r, n) + (if |x.word| == n then [x] else [])
  {
    if |x.word| == n {
      WithLengthShorter(r, n);
    }
    assert ([x] + r)[1..] == r;
  }

  lemma {:induction false} InsertWithLength<E>(x: Sample<E>, r: seq<Sample<E>>, n: nat)
    requires SortedByLength(r)
    ensures WithLength(Insert(x, r), n) == WithLength(r, n) + (if |x.word| == n then [x] else [])
  {
    if r == [] {
      WithLengthSingle(x, n);
    } else if |r[0].word| >= |x.word| {
      InsertWithLength(x, r[1..], n);
      InsertBehindWithLength(x, r, n, if |x.word| == n then [x] else []);
    } else {
      InsertFrontWithLength(x, r, n);
    }
  }

  /**
   The samples stably sorted by descending word length: the order that
   sorting with the key "minus the word length" produces.
   */
  function SortByLength<E>(s: seq<Sample<E>>): (r: seq<Sample<E>>)
    ensures SortedByLength(r)
    ensures |r| == |s|
    ensures multiset(r) == multiset(s)
  {
    if s == [] then []
    else
      assert s == s[..|s| - 1] + [s[|s| - 1]];
      var init := SortByLength(s[..|s| - 1]);
      InsertSorted(s[|s| - 1], init);
      InsertPermutes(s[|s| - 1], init);
      Insert(s[|s| - 1], init)
  }

  /** Stability: samples of equal word length keep their relative order. */
  lemma {:induction false} SortByLengthStable<E>(s: seq<Sample<E>>)
    ensures SameLengthClasses(SortByLength(s), s)
  {
    if s != [] {
      var init, last := s[..|s| - 1], s[|s| - 1];
      SortByLengthStable(init);
      assert s == init + [last];
      forall n: nat ensures WithLength(SortByLength(s), n) == WithLength(s, n) {
        InsertWithLength(last, SortByLength(init), n);
        WithLengthAppend(init, [last], n);
      }
    }
  }

  lemma {:induction false} WithLengthHead<E>(s: seq<Sample<E>>)
    requires s != [] && SortedByLength(s)
    ensures WithLength(s, |s[0].word|) != [] && WithLength(s, |s[0].word|)[0] == s[0]
    ensures forall m: nat :: m > |s[0].word| ==> WithLength(s, m) == []
  {
    forall m: nat | m > |s[0].word| ensures WithLength(s, m) == [] {
      WithLengthShorter(s, m);
    }
  }

  /**
   A sequence sorted by descending length is determined by its length
   classes: two such sequences with the same classes are equal.
   */
  lemma {:induction false} SortedClassesDetermine<E>(a: seq<Sample<E>>, b: seq<Sample<E>>)
    requires SortedByLength(a) && SortedByLength(b) && SameLengthClasses(a, b)
    ensures a == b
  {
    if a == [] && b == [] {
    } else if a == [] {
      WithLengthHead(b);
      assert false;
    } else if b == [] {
      WithLengthHead(a);
      assert false;
    } else {
      var la, lb := |a[0].word|, |b[0].word|;
      WithLengthHead(a);
      WithLengthHead(b);
      if la != lb {
        assert false;
      }
      assert WithLength(a, la)[0] == WithLength(b, la)[0];
      assert a[0] == b[0];
      forall n: nat ensures WithLength(a[1..], n) == WithLength(b[1..], n) {
        var h := if la == n then [a[0]] else [];
        assert WithLength(a, n) == h + WithLength(a[1..], n);
        assert WithLength(b, n) == h + WithLength(b[1..], n);
        assert WithLength(a[1..], n) == WithLength(a, n)[|h|..];
      }
      assert SortedByLength(a[1..]) && SortedByLength(b[1..]);
      SortedClassesDetermine(a[1..], b[1..]);
      assert a == [a[0]] + a[1..] && b == [b[0]] + b[1..];
    }
  }

  /**
   SortByLength is THE stable sort by descending length: every ordering of
   the samples that is sorted by descending length and keeps equal-length
   samples in their original order is the one it returns.
   */
  lemma StableSortUnique<E>(s: seq<Sample<E>>, r: seq<Sample<E>>)
    requires SortedByLength(r) && SameLengthClasses(r, s)
    ensures r == SortByLength(s)
  {
    SortByLengthStable(s);
    SortedClassesDetermine(r, SortByLength(s));
  }

  /** Python's `x[:-1]`: everything but the last index (empty for an empty sequence). */
  function DropLast(x: seq<int>): (r: seq<int>)
    ensures |x| > 0 ==> r + [x[|x| - 1]] == x
    ensures |x| == 0 ==> r == []
  {
    if |x| == 0 then [] else x[..|x| - 1]
  }

  /** Python's `x[1:]`: everything but the first index (empty for an empty sequence). */
  function DropFirst(x: seq<int>): (r: seq<int>)
    ensures |x| > 0 ==> [x[0]] + r == x
    ensures |x| == 0 ==> r == []
  {
    if |x| == 0 then [] else x[1..]
  }

  /**
   The decoder input and target of one framed sequence have the same length,
   one less than the sequence, and the target is the input shifted by one.
   */
  lemma ShiftAligned(x: seq<int>)
    requires |x| >= 1
    ensures |DropLast(x)| == |DropFirst(x)| == |x| - 1
    ensures forall j :: 0 <= j < |x| - 2 ==> DropFirst(x)[j] == DropLast(x)[j + 1]
    ensures |x| >= 2 ==> DropLast(x)[0] == x[0] && DropFirst(x)[|x| - 2] == x[|x| - 1]
  {
  }

  /**
   Collates a non-empty list of samples: words and embedding rows in the
   stably sorted order, and each sorted sample's framed sequence cut into a
   decoder input and a decoder target.
   */
  function Collate<E>(samples: seq<Sample<E>>): (b: Batch<E>)
    requires |samples| > 0
    ensures |b.words| == |b.embeddings| == |b.inputWords| == |b.outputWords| == |samples|
    ensures forall i, j :: 0 <= i < j < |samples| ==> |b.words[i]| >= |b.words[j]|
    ensures multiset(b.words) == multiset(WordsOf(samples))
    ensures var sorted := SortByLength(samples);
      SameLengthClasses(sorted, samples) &&
      forall k :: 0 <= k < |samples| ==>
        && b.words[k] == sorted[k].word
        && b.embeddings[k] == sorted[k].embedding
        && b.inputWords[k] == DropLast(sorted[k].indexedWord)
        && b.outputWords[k] == DropFirst(sorted[k].indexedWord)
  {
    var sorted := SortByLength(samples);
    SortByLengthStable(samples);
    var words := WordsOf(sorted);
    assert multiset(words) == multiset(WordsOf(samples)) by {
      SortByLengthWords(samples);
    }
    Batch(
      words,
      seq(|sorted|, k requires 0 <= k < |sorted| => sorted[k].embedding),
      seq(|sorted|, k requires 0 <= k < |sorted| => DropLast(sorted[k].indexedWord)),
      seq(|sorted|, k requires 0 <= k < |sorted| => DropFirst(sorted[k].indexedWord)))
  }

  lemma WordsOfAppend<E>(a: seq<Sample<E>>, b: seq<Sample<E>>)
    ensures WordsOf(a + b) == WordsOf(a) + WordsOf(b)
  {
  }

  lemma WordsOfCons<E>(h: Sample<E>, t: seq<Sample<E>>)
    ensures multiset(WordsOf([h] + t)) == multiset{h.word} + multiset(WordsOf(t))
  {
    WordsOfAppend([h], t);
    assert WordsOf([h]) == [h.word];
  }

  lemma {:induction false} InsertWords<E>(x: Sample<E>, r: seq<Sample<E>>)
    ensures multiset(WordsOf(Insert(x, r))) == multiset(WordsOf(r)) + multiset{x.word}
  {
    if r == [] {
      assert WordsOf([x]) == [x.word];
    } else if |r[0].word| >= |x.word| {
      InsertWords(x, r[1..]);
      WordsOfCons(r[0], Insert(x, r[1..]));
      WordsOfCons(r[0], r[1..]);
      assert [r[0]] + r[1..] == r;
    } else {
      WordsOfCons(x, r);
    }
  }

  lemma WordsOfSnoc<E>(s: seq<Sample<E>>)
    requires s != []
    ensures WordsOf(s) == WordsOf(s[..|s| - 1]) + [s[|s| - 1].word]
  {
  }

  /** Sorting permutes the words of the samples. */
  lemma {:induction false} SortByLengthWords<E>(s: seq<Sample<E>>)
    ensures multiset(WordsOf(SortByLength(s))) == multiset(WordsOf(s))
  {
    if s != [] {
      var init, last := s[..|s| - 1], s[|s| - 1];
      SortByLengthWords(init);
      InsertWords(last, SortByLength(init));
      WordsOfSnoc(s);
    }
  }

  /** Each sample's framed sequence is the framing of its own word. */
  predicate Framed<E>(char2idx: map<string, int>, x: Sample<E>)
  {
    CanFrame(char2idx, x.word) && x.indexedWord == FrameWord(char2idx, x.word)
  }

  /** Sorting keeps every sample, so a property of all input samples holds of all sorted ones. */
  lemma SortKeepsFramed<E>(char2idx: map<string, int>, samples: seq<Sample<E>>)
    requires forall i :: 0 <= i < |samples| ==> Framed(char2idx, samples[i])
    ensures forall k :: 0 <= k < |samples| ==> Framed(char2idx, SortByLength(samples)[k])
  {
    var sorted := SortByLength(samples);
    forall k | 0 <= k < |samples| ensures Framed(char2idx, sorted[k]) {
      assert sorted[k] in multiset(samples);
    }
  }

  /** The decoder input and target of one framed sample. */
  lemma ShiftFramed<E>(char2idx: map<string, int>, x: Sample<E>)
    requires Framed(char2idx, x)
    ensures DropLast(x.indexedWord) == [char2idx[START]] + CharIndices(char2idx, x.word)
    ensures DropFirst(x.indexedWord) == CharIndices(char2idx, x.word) + [char2idx[END]]
  {
  }

  /**
   For samples retrieved from a dataset, the decoder input of every batch
   entry is START followed by its word's character indices, and the decoder
   target is those indices followed by END.
   */
  lemma CollateFramed<E>(char2idx: map<string, int>, samples: seq<Sample<E>>)
    requires |samples| > 0
    requires forall i :: 0 <= i < |samples| ==> Framed(char2idx, samples[i])
    ensures var b := Collate(samples);
      forall k :: 0 <= k < |samples| ==>
        && CanFrame(char2idx, b.words[k])
        && b.inputWords[k] == [char2idx[START]] + CharIndices(char2idx, b.words[k])
        && b.outputWords[k] == CharIndices(char2idx, b.words[k]) + [char2idx[END]]
    ensures var b := Collate(samples);
      forall k :: 0 <= k < |samples| ==> |b.inputWords[k]| >= 1 && |b.outputWords[k]| >= 1
    ensures var b := Collate(samples);
      forall i, j :: 0 <= i < j < |samples| ==>
        |b.inputWords[i]| >= |b.inputWords[j]| && |b.outputWords[i]| >= |b.outputWords[j]|
  {
    var sorted := SortByLength(samples);
    SortKeepsFramed(char2idx, samples);
    var b := Collate(samples);
    forall k | 0 <= k < |samples|
      ensures CanFrame(char2idx, b.words[k])
      ensures b.inputWords[k] == [char2idx[START]] + CharIndices(char2idx, b.words[k])
      ensures b.outputWords[k] == CharIndices(char2idx, b.words[k]) + [char2idx[END]]
    {
      ShiftFramed(char2idx, sorted[k]);
    }
  }

  /**
   Worked example: vocabulary {"ab": 0, "c": 1} and character vocabulary
   {START: 0, END: 1, a: 2, b: 3, c: 4}.
   */
  lemma ExampleFraming()
    ensures var char2idx := map["START" := 0, "END" := 1, "a" := 2, "b" := 3, "c" := 4];
      FrameWord(char2idx, "ab") == [0, 2, 3, 1] && FrameWord(char2idx, "c") == [0, 4, 1]
  {
  }

  lemma ExampleSorted<E>(c: Sample<E>, ab: Sample<E>)
    requires |c.word| == 1 && |ab.word| == 2
    ensures SortByLength([c, ab]) == [ab, c]
  {
  }

  /** The same example collated: given the shorter word first, the batch still lists "ab" before "c". */
  lemma ExampleBatchOrder<E>(e0: E, e1: E)
    ensures var b := Collate([Sample("c", [0, 4, 1], e1), Sample("ab", [0, 2, 3, 1], e0)]);
      b.words == ["ab", "c"] && b.embeddings == [e0, e1]
  {
    ExampleSorted(Sample("c", [0, 4, 1], e1), Sample("ab", [0, 2, 3, 1], e0));
  }

  /** The decoder inputs and targets of the same example. */
  lemma ExampleBatchShift<E>(e0: E, e1: E)
    ensures var b := Collate([Sample("c", [0, 4, 1], e1), Sample("ab", [0, 2, 3, 1], e0)]);
      b.inputWords == [[0, 2, 3], [0, 4]] && b.outputWords == [[2, 3, 1], [4, 1]]
  {
    var c := Sample("c", [0, 4, 1], e1);
    var ab := Sample("ab", [0, 2, 3, 1], e0);
    ExampleSorted(c, ab);
    assert DropLast(ab.indexedWord) == [0, 2, 3] && DropLast(c.indexedWord) == [0, 4];
    assert DropFirst(ab.indexedWord) == [2, 3, 1] && DropFirst(c.indexedWord) == [4, 1];
  }

  /** Worked example of stability: two words of equal length keep their input order. */
  lemma ExampleStable<E>(xy: Sample<E>, yx: Sample<E>)
    requires |xy.word| == |yx.word|
    ensures SortByLength([xy, yx]) == [xy, yx]
  {
  }
}
