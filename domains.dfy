/**
 * Candidate strings.  The program keeps the candidates of a box as a string
 * of digit characters ("123456789" for an open box, "7" for a decided one)
 * and narrows it with `str.replace(c, '')`, which deletes every occurrence
 * of the character c.
 */
module Domains {

  /** The characters of a string, as a set (Python's `set(s)`). */
  function Chars(s: string): set<char> {
    set c | c in s
  }

  /** `s.replace(c, '')` for a one-character c: s with every c deleted, the rest in order. */
  function Remove(s: string, c: char): (r: string)
    ensures forall x :: x in r <==> x in s && x != c
    ensures |r| <= |s|
    ensures c in s ==> |r| < |s|
  {
    if s == [] then []
    else if s[0] == c then Remove(s[1..], c)
    else [s[0]] + Remove(s[1..], c)
  }

  /** s with every character of `cs` deleted, the rest in order. */
  function Without(s: string, cs: set<char>): (r: string)
    ensures forall x :: x in r <==> x in s && x !in cs
    ensures |r| <= |s|
  {
    if s == [] then []
    else if s[0] in cs then Without(s[1..], cs)
    else [s[0]] + Without(s[1..], cs)
  }

  /** Deleting one more character after a set of them is deleting the larger set. */
  lemma {:induction false} RemoveAfterWithout(s: string, cs: set<char>, c: char)
    ensures Remove(Without(s, cs), c) == Without(s, cs + {c})
  {
    if s != [] {
      RemoveAfterWithout(s[1..], cs, c);
      if s[0] !in cs {
        assert Without(s, cs) == [s[0]] + Without(s[1..], cs);
        assert Remove(Without(s, cs), c) == (if s[0] == c then [] else [s[0]]) + Remove(Without(s[1..], cs), c);
      }
    }
  }

  /** Deleting characters that do not occur changes nothing. */
  lemma {:induction false} WithoutMissing(s: string, cs: set<char>)
    requires forall x :: x in s ==> x !in cs
    ensures Without(s, cs) == s
  {
    if s != [] {
      WithoutMissing(s[1..], cs);
      assert s == [s[0]] + s[1..];
    }
  }

  /** A candidate string: digits 1 to 9 in strictly ascending order, so no digit twice. */
  predicate IsDomain(s: string) {
    (forall i :: 0 <= i < |s| ==> '1' <= s[i] <= '9') &&
    (forall i, j :: 0 <= i < j < |s| ==> s[i] < s[j])
  }

  /** Every candidate of a candidate string is a digit, and the digit alone is a candidate string. */
  lemma {:induction false} DomainDigit(s: string, c: char)
    requires IsDomain(s) && c in s
    ensures '1' <= c <= '9' && IsDomain([c])
  {
    var i :| 0 <= i < |s| && s[i] == c;
  }

  lemma {:induction false} WithoutKeepsDomain(s: string, cs: set<char>)
    requires IsDomain(s)
    ensures IsDomain(Without(s, cs))
  {
    if s != [] {
      WithoutKeepsDomain(s[1..], cs);
      var w := Without(s[1..], cs);
      if s[0] !in cs {
        forall x | x in w ensures s[0] < x {
          var k :| 0 <= k < |s[1..]| && s[1..][k] == x;
          assert s[0] < s[k + 1];
        }
        ConsKeepsDomain(s[0], w);
      }
    }
  }

  /** A digit below every candidate of a candidate string can be put in front of it. */
  lemma {:induction false} ConsKeepsDomain(c: char, w: string)
    requires IsDomain(w) && '1' <= c <= '9'
    requires forall x :: x in w ==> c < x
    ensures IsDomain([c] + w)
  {
    var r := [c] + w;
    forall i, j | 0 <= i < j < |r| ensures r[i] < r[j] {
      if i == 0 {
        assert r[j] in w;
      } else {
        assert r[i] == w[i - 1] && r[j] == w[j - 1];
      }
    }
  }

  lemma {:induction false} RemoveKeepsDomain(s: string, c: char)
    requires IsDomain(s)
    ensures IsDomain(Remove(s, c))
  {
    RemoveIsWithout(s, c);
    WithoutKeepsDomain(s, {c});
  }

  lemma {:induction false} RemoveIsWithout(s: string, c: char)
    ensures Remove(s, c) == Without(s, {c})
  {
    if s != [] {
      RemoveIsWithout(s[1..], c);
    }
  }

  /**
   * u narrows v: it offers no candidate v does not, and it is no longer.
   * Every rule of the solver only ever narrows a box.
   */
  predicate Narrower(u: string, v: string) {
    (forall c :: c in u ==> c in v) && |u| <= |v|
  }

  /** The one element of a one-element set (Python's `choices.pop()` on a singleton). */
  ghost function TheElement(s: set<char>): (c: char)
    requires |s| == 1
    ensures c in s && s == {c}
  {
    var c :| c in s;
    SingletonSet(s, c);
    c
  }

  lemma {:induction false} SingletonSet(s: set<char>, c: char)
    requires |s| == 1 && c in s
    ensures s == {c}
  {
    var rest := s - {c};
    assert |rest| == 0;
  }
}
