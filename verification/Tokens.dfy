/** The compact serialization as text: joining segments with '.' and splitting on it. */
module Tokens {

  function Join(parts: seq<string>): string
    requires parts != []
  {
    if |parts| == 1 then parts[0] else parts[0] + "." + Join(parts[1..])
  }

  /** Go's strings.Split(s, "."). */
  function Split(s: string): (parts: seq<string>)
    ensures parts != []
  {
    if s == "" then [""]
    else if s[0] == '.' then [""] + Split(s[1..])
    else
      var rest := Split(s[1..]);
      [[s[0]] + rest[0]] + rest[1..]
  }

  lemma {:induction false} SplitFirst(a: string, b: string)
    requires '.' !in a
    ensures Split(a + "." + b) == [a] + Split(b)
  {
    if a == "" {
      assert (a + "." + b)[1..] == b;
    } else {
      SplitFirst(a[1..], b);
      assert (a + "." + b)[1..] == a[1..] + "." + b;
      assert [a[0]] + a[1..] == a;
      assert ([a[1..]] + Split(b))[1..] == Split(b);
    }
  }

  lemma {:induction false} SplitOne(a: string)
    requires '.' !in a
    ensures Split(a) == [a]
  {
    if a != "" {
      SplitOne(a[1..]);
      assert [a[0]] + a[1..] == a;
    }
  }

  /** A token is its parts joined, and no part contains a '.'. */
  lemma {:induction false} PartsOfToken(s: string)
    ensures Join(Split(s)) == s
    ensures forall i :: 0 <= i < |Split(s)| ==> '.' !in Split(s)[i]
  {
    if s != "" {
      var rest := Split(s[1..]);
      PartsOfToken(s[1..]);
      assert s == [s[0]] + s[1..];
      if s[0] == '.' {
        assert ([""] + rest)[1..] == rest;
      } else {
        var parts := [[s[0]] + rest[0]] + rest[1..];
        assert parts[1..] == rest[1..];
        if |rest| > 1 {
          assert Join(rest) == rest[0] + "." + Join(rest[1..]);
        }
      }
    }
  }

  /** Three and five parts, joined, written out. */
  lemma JoinedParts(a: string, b: string, c: string, d: string, e: string)
    ensures Join([a, b, c]) == a + "." + b + "." + c
    ensures Join([a, b, c, d, e]) == a + "." + b + "." + c + "." + d + "." + e
  {
    assert Join([d, e]) == d + "." + e by { assert [d, e][1..] == [e]; }
    assert Join([b, c]) == b + "." + c by { assert [b, c][1..] == [c]; }
    assert Join([a, b, c]) == a + "." + Join([b, c]) by { assert [a, b, c][1..] == [b, c]; }
    assert Join([c, d, e]) == c + "." + Join([d, e]) by { assert [c, d, e][1..] == [d, e]; }
    assert Join([b, c, d, e]) == b + "." + Join([c, d, e]) by { assert [b, c, d, e][1..] == [c, d, e]; }
    assert Join([a, b, c, d, e]) == a + "." + Join([b, c, d, e]) by { assert [a, b, c, d, e][1..] == [b, c, d, e]; }
    assert a + "." + (b + "." + c) == a + "." + b + "." + c;
    assert a + "." + (b + "." + (c + "." + (d + "." + e))) == a + "." + b + "." + c + "." + d + "." + e;
  }

  /** Splitting a joined token returns exactly the segments it was joined from. */
  lemma {:induction false} SplitJoined(parts: seq<string>)
    requires parts != [] && forall i :: 0 <= i < |parts| ==> '.' !in parts[i]
    ensures Split(Join(parts)) == parts
  {
    if |parts| == 1 {
      SplitOne(parts[0]);
    } else {
      SplitFirst(parts[0], Join(parts[1..]));
      SplitJoined(parts[1..]);
      assert [parts[0]] + parts[1..] == parts;
    }
  }
}
