/** Receivers that take one byte at a time, and what they do with strings of them. */
module Streams {
  import opened Bytes

  /** What a receiver becomes with one byte, and what it gives up meanwhile. */
  type Stepper<!S, !O> = (S, byte) -> (S, seq<O>)

  function Feed<S, O>(step: Stepper<S, O>, state: S, s: seq<byte>): (S, seq<O>)
    decreases |s|
  {
    if s == [] then (state, [])
    else
      var (before, outputs) := Feed(step, state, s[..|s| - 1]);
      var (after, more) := step(before, s[|s| - 1]);
      (after, outputs + more)
  }

  lemma {:induction false} FeedConcat<S, O>(step: Stepper<S, O>, state: S, s: seq<byte>, t: seq<byte>)
    ensures var (middle, first) := Feed(step, state, s);
            var (after, second) := Feed(step, middle, t);
            Feed(step, state, s + t) == (after, first + second)
    decreases |t|
  {
    if t == [] {
      assert s + t == s;
      assert Feed(step, state, s).1 + [] == Feed(step, state, s).1;
    } else {
      var start := t[..|t| - 1];
      assert (s + t)[..|s + t| - 1] == s + start;
      FeedConcat(step, state, s, start);
      var (middle, first) := Feed(step, state, s);
      var (before, second) := Feed(step, middle, start);
      var more := step(before, t[|t| - 1]).1;
      assert first + second + more == first + (second + more);
    }
  }

  lemma FeedOne<S, O>(step: Stepper<S, O>, state: S, value: byte)
    ensures Feed(step, state, [value]) == step(state, value)
  {
    assert [value][..0] == [];
    assert Feed(step, state, []) == (state, []);
    assert [] + step(state, value).1 == step(state, value).1;
  }

  /** The last stretch of `s` without a delimiter. */
  function LastPart(delimiter: byte, s: seq<byte>): seq<byte>
    decreases |s|
  {
    if s == [] || s[|s| - 1] == delimiter then [] else LastPart(delimiter, s[..|s| - 1]) + [s[|s| - 1]]
  }
}
