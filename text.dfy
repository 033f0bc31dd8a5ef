/** String helpers the scraper relies on: Ruby's `String#include?` (the
    `/watch/` test on card links) and `Array#join('|')` (the member column of
    each output row), with a splitter that undoes the join. */
module Text {

  /** `sub` occurs in `s` starting at position `i`. */
  predicate OccursAt(s: string, sub: string, i: nat) {
    i + |sub| <= |s| && s[i..i + |sub|] == sub
  }

  /** Substring test, as Ruby's `s.include?(sub)`. */
  function Contains(s: string, sub: string): (b: bool)
    ensures b <==> exists i: nat :: OccursAt(s, sub, i)
    decreases |s|
  {
    if |sub| <= |s| && s[..|sub|] == sub then
      assert OccursAt(s, sub, 0);
      true
    else if |s| <= |sub| then
      false
    else
      var b := Contains(s[1..], sub);
      assert b ==> exists i: nat :: OccursAt(s, sub, i) by {
        if b {
          var i: nat :| OccursAt(s[1..], sub, i);
          assert s[1..][i..i + |sub|] == s[i + 1..i + 1 + |sub|];
          assert OccursAt(s, sub, i + 1);
        }
      }
      assert (exists i: nat :: OccursAt(s, sub, i)) ==> b by {
        if exists i: nat :: OccursAt(s, sub, i) {
          var i: nat :| OccursAt(s, sub, i);
          assert i != 0;
          assert s[1..][i - 1..i - 1 + |sub|] == s[i..i + |sub|];
          assert OccursAt(s[1..], sub, i - 1);
        }
      }
      b
  }

  /** A text lacking one of the characters of `sub` cannot contain `sub`. */
  lemma MissingCharNotContained(s: string, sub: string, k: nat)
    requires k < |sub| && sub[k] !in s
    ensures !Contains(s, sub)
  {
    forall i: nat | OccursAt(s, sub, i) ensures false { }
  }

  const Separator: char := '|'

  /** Ruby's `names.join('|')`: the empty list joins to the empty string. */
  function Join(names: seq<string>): (s: string)
    ensures names == [] ==> s == ""
    ensures |names| == 1 ==> s == names[0]
    ensures |names| >= 2 ==> Separator in s
    ensures forall c :: c in s ==> c == Separator || exists k :: 0 <= k < |names| && c in names[k]
    decreases |names|
  {
    if names == [] then ""
    else if |names| == 1 then names[0]
    else
      var rest := Join(names[1..]);
      assert forall k :: 0 <= k < |names| - 1 ==> names[1..][k] == names[k + 1];
      names[0] + [Separator] + rest
  }

  /** Cuts `s` at every separator; it always yields at least one field. */
  function Split(s: string): (fields: seq<string>)
    ensures |fields| >= 1
    decreases |s|
  {
    if s == [] then [""]
    else
      var rest := Split(s[1..]);
      if s[0] == Separator then [""] + rest
      else [[s[0]] + rest[0]] + rest[1..]
  }

  /** A name without a separator glues onto the first field of what follows. */
  lemma {:induction false} SplitPlainPrefix(name: string, t: string)
    requires Separator !in name
    ensures Split(name + t) == [name + Split(t)[0]] + Split(t)[1..]
    decreases |name|
  {
    if name != [] {
      assert (name + t)[1..] == name[1..] + t;
      SplitPlainPrefix(name[1..], t);
      assert [name[0]] + (name[1..] + Split(t)[0]) == name + Split(t)[0];
    } else {
      assert name + t == t;
      assert name + Split(t)[0] == Split(t)[0];
      assert Split(t) == [Split(t)[0]] + Split(t)[1..];
    }
  }

  /** Splitting a joined roster gives the roster back, provided it is
      non-empty (an empty roster and a roster of one empty name both join to
      the empty string) and no name contains the separator. */
  lemma {:induction false} SplitJoin(names: seq<string>)
    requires |names| >= 1
    requires forall i :: 0 <= i < |names| ==> Separator !in names[i]
    ensures Split(Join(names)) == names
    decreases |names|
  {
    if |names| == 1 {
      SplitPlainPrefix(names[0], "");
      assert names[0] + "" == names[0];
    } else {
      var tail := Join(names[1..]);
      SplitJoin(names[1..]);
      SplitPlainPrefix(names[0], [Separator] + tail);
      assert ([Separator] + tail)[1..] == tail;
      assert names[0] + [Separator] + tail == names[0] + ([Separator] + tail);
      assert names[0] + "" == names[0];
      assert names == [names[0]] + names[1..];
    }
  }
}
