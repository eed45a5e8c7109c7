/** The hardware scrambler: one word stream per seed, shared by transmitter and receiver. */
module Scrambling {
  import opened Words

  /** The scrambler's output: word `n` after a reseed with seed 0 (false) or 1 (true). */
  const STREAM: (bool, nat) -> Word

  /** A word combined with a word of the stream: the exclusive or. */
  function Mix(w: Word, key: Word): Word {
    w ^ key
  }

  /** A run of words combined with the stream from position `from` on. */
  function Scramble(seed: bool, from: nat, ws: seq<Word>): (r: seq<Word>)
    ensures |r| == |ws|
  {
    seq(|ws|, i requires 0 <= i < |ws| => Mix(ws[i], STREAM(seed, from + i)))
  }

  lemma MixTwice(w: Word, key: Word)
    ensures Mix(Mix(w, key), key) == w
  {}

  /** Scrambling with the same seed and position undoes itself. */
  lemma ScrambleTwice(seed: bool, from: nat, ws: seq<Word>)
    ensures Scramble(seed, from, Scramble(seed, from, ws)) == ws
  {
    hide Mix;
    var r := Scramble(seed, from, Scramble(seed, from, ws));
    forall i | 0 <= i < |ws|
      ensures r[i] == ws[i]
    {
      MixTwice(ws[i], STREAM(seed, from + i));
    }
  }

  lemma ScrambleOne(seed: bool, from: nat, w: Word)
    ensures Scramble(seed, from, [w]) == [Mix(w, STREAM(seed, from))]
  {}

  lemma ScrambleAppend(seed: bool, from: nat, a: seq<Word>, b: seq<Word>)
    ensures Scramble(seed, from, a + b) == Scramble(seed, from, a) + Scramble(seed, from + |a|, b)
  {}

  class Scrambler {
    var seed: bool
    var pos: nat

    constructor ()
      ensures !seed && pos == 0
    {
      seed, pos := false, 0;
    }

    /** Any nonzero argument selects seed 1. */
    method Reseed(value: Word)
      modifies this
      ensures seed == (value != 0) && pos == 0
    {
      seed, pos := value != 0, 0;
    }

    method Read() returns (w: Word)
      modifies this`pos
      ensures w == STREAM(seed, old(pos)) && pos == old(pos) + 1
    {
      w := STREAM(seed, pos);
      pos := pos + 1;
    }
  }
}
