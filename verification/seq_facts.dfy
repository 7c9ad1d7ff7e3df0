/** Small facts about sequences, stated once and used where the frame proofs need them. */
module SeqFacts {
  lemma TakeDrop<T>(s: seq<T>, i: nat)
    requires i <= |s|
    ensures s[..i] + s[i..] == s
  {}

  lemma AppendAssoc<T>(a: seq<T>, b: seq<T>, c: seq<T>)
    ensures a + (b + c) == (a + b) + c
  {}

  /** Moving a prefix `pair` of the pending part `w` over to the done part `t`. */
  lemma ShiftDone<T>(o: seq<T>, t: seq<T>, w: seq<T>, pair: seq<T>, rest: seq<T>, tr: seq<T>)
    requires o == t + w && w == pair + rest && tr == t + pair
    ensures o == tr + rest
  {
    assert t + (pair + rest) == (t + pair) + rest;
  }

  lemma SnocSnoc<T>(t: seq<T>, x: T, y: T)
    ensures t + [x] + [y] == t + [x, y]
  {}

  lemma PairCons<T>(x: T, y: T, r: seq<T>)
    ensures [x, y] + r == [x] + ([y] + r)
  {}

  lemma SliceOfSlice<T>(s: seq<T>, c: nat, i: nat, n: nat)
    requires c <= |s| && i + n <= |s| - c
    ensures s[c..][i..i + n] == s[c + i..c + i + n]
  {}

  /** Regrouping a sequence after one element is cut off the front of its middle part. */
  lemma RegroupCut<T>(w: T, x: T, r: seq<T>, o: T, tail: seq<T>, e: seq<T>)
    requires [w] + r + [o] == tail + e
    ensures [w] + ([x, w] + r) + [o] == [w, x] + tail + e
  {
    calc {
      [w] + ([x, w] + r) + [o];
      [w, x] + ([w] + r + [o]);
      [w, x] + (tail + e);
    }
  }
}
