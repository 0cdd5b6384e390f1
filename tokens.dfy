/** JavaScript's `s.split(", ")`, which the ban predicate applies to a
    temperament string, with the facts about it the predicate relies on. */
module Tokens {

  /** The separator ", " starts at index `i` of `s`. */
  predicate SepAt(s: string, i: int)
  {
    0 <= i && i + 1 < |s| && s[i] == ',' && s[i + 1] == ' '
  }

  /** `s` contains the separator ", " somewhere. */
  predicate HasSep(s: string)
  {
    exists i :: 0 <= i < |s| && SepAt(s, i)
  }

  /** `tokens.join(", ")`. */
  function Join(tokens: seq<string>): string
    requires |tokens| > 0
  {
    if |tokens| == 1 then tokens[0] else tokens[0] + ", " + Join(tokens[1..])
  }

  /** `s.split(", ")`: the pieces between left-to-right occurrences of the
      separator; the empty string splits into one empty token. */
  function Split(s: string): (tokens: seq<string>)
    ensures |tokens| >= 1
    decreases |s|
  {
    if |s| == 0 then [""]
    else if SepAt(s, 0) then [""] + Split(s[2..])
    else
      var rest := Split(s[1..]);
      [[s[0]] + rest[0]] + rest[1..]
  }

  lemma SepShift(c: char, s: string, i: int)
    requires 0 <= i
    ensures SepAt([c] + s, i + 1) <==> SepAt(s, i)
  {
  }

  /** Splitting and joining again gives back the string, and no token
      contains the separator: the split is a faithful tokenisation. */
  lemma {:induction false} SplitJoin(s: string)
    ensures Join(Split(s)) == s
    ensures forall t :: t in Split(s) ==> !HasSep(t)
    decreases |s|
  {
    if |s| == 0 {
      assert Split(s) == [""];
      assert !SepAt("", 0);
    } else if SepAt(s, 0) {
      SplitJoin(s[2..]);
      var r := Split(s[2..]);
      assert Split(s) == [""] + r;
      assert Join([""] + r) == "" + ", " + Join(r) by {
        assert ([""] + r)[1..] == r;
      }
      assert s == ", " + s[2..];
      forall t | t in Split(s) ensures !HasSep(t) {
        if t == "" {
          assert forall i :: !SepAt(t, i);
        }
      }
    } else {
      SplitJoin(s[1..]);
      var rest := Split(s[1..]);
      var first := [s[0]] + rest[0];
      assert Split(s) == [first] + rest[1..];
      if |rest| == 1 {
        assert Join([first] + rest[1..]) == first;
        assert rest[0] == s[1..];
      } else {
        assert Join(rest) == rest[0] + ", " + Join(rest[1..]);
        assert ([first] + rest[1..])[1..] == rest[1..];
        assert Join([first] + rest[1..]) == first + ", " + Join(rest[1..]);
      }
      assert s == [s[0]] + s[1..];
      // The first token of the rest is a prefix of `s[1..]`, so the first
      // character cannot fuse with it into a separator.
      assert rest[0] <= Join(rest) by { JoinPrefix(rest); }
      forall t | t in Split(s) ensures !HasSep(t) {
        if t == first {
          forall i ensures !SepAt(first, i) {
            if i == 0 {
              assert !SepAt(s, 0);
              if |rest[0]| > 0 {
                assert first[1] == rest[0][0] == s[1];
              }
            } else if i > 0 {
              SepShift(s[0], rest[0], i - 1);
              assert !HasSep(rest[0]);
            }
          }
        } else {
          assert t in rest[1..];
        }
      }
    }
  }

  lemma JoinPrefix(tokens: seq<string>)
    requires |tokens| > 0
    ensures tokens[0] <= Join(tokens)
  {
  }

  /** A string without the separator is a single token. */
  lemma {:induction false} SplitNoSep(s: string)
    requires !HasSep(s)
    ensures Split(s) == [s]
    decreases |s|
  {
    if |s| > 0 {
      assert !SepAt(s, 0);
      assert !HasSep(s[1..]) by {
        forall i | 0 <= i ensures !SepAt(s[1..], i) {
          assert s == [s[0]] + s[1..];
          SepShift(s[0], s[1..], i);
        }
      }
      SplitNoSep(s[1..]);
      assert s == [s[0]] + s[1..];
    }
  }

  /** A token without the separator, followed by ", ", splits off as the
      first token. */
  lemma {:induction false} SplitCons(a: string, b: string)
    requires !HasSep(a)
    ensures Split(a + ", " + b) == [a] + Split(b)
    decreases |a|
  {
    var s := a + ", " + b;
    if |a| == 0 {
      assert s == ", " + b;
      assert SepAt(s, 0);
      assert s[2..] == b;
    } else {
      var a' := a[1..];
      assert a == [a[0]] + a';
      assert !HasSep(a') by {
        forall i | 0 <= i ensures !SepAt(a', i) { SepShift(a[0], a', i); }
      }
      assert s == [a[0]] + (a' + ", " + b);
      assert s[1..] == a' + ", " + b;
      assert !SepAt(s, 0) by {
        if |a'| > 0 {
          assert s[1] == a'[0];
          assert !SepAt(a, 0);
        } else {
          assert s[1] == ',';
        }
      }
      SplitCons(a', b);
    }
  }

  /** The separator itself is never a part of a token, so a value that
      contains ", " is never among the tokens of any string. */
  lemma SepValueIsNoToken(s: string, v: string)
    requires HasSep(v)
    ensures v !in Split(s)
  {
    SplitJoin(s);
  }

  /** A string without the separator is a token of `s` exactly when `s` is
      that one string; a string with it is a token of nothing. Hence a whole
      string is among its own tokens iff it holds one token. */
  lemma WholeStringIsToken(s: string)
    ensures s in Split(s) <==> !HasSep(s)
  {
    if HasSep(s) {
      SepValueIsNoToken(s, s);
    } else {
      SplitNoSep(s);
    }
  }

  /** Two separator-free tokens joined by ", " split back into the two. */
  lemma SplitPair(a: string, b: string)
    requires !HasSep(a) && !HasSep(b)
    ensures Split(a + ", " + b) == [a, b]
  {
    SplitCons(a, b);
    SplitNoSep(b);
  }

  /** Example: "Curious, Playful" has the tokens
      "Curious" and "Playful", so "Playful" is a token and "Play" is not. */
  lemma CuriousPlayful()
    ensures Split("Curious, Playful") == ["Curious", "Playful"]
    ensures "Playful" in Split("Curious, Playful")
    ensures "Play" !in Split("Curious, Playful")
  {
    var a, b := "Curious", "Playful";
    NoSepLiteral(a);
    NoSepLiteral(b);
    assert "Curious, Playful" == a + ", " + b;
    SplitPair(a, b);
    var tokens := Split("Curious, Playful");
    assert tokens == [a, b];
    assert tokens[1] == "Playful";
    assert |"Play"| == 4 && |a| == 7 && |b| == 7;
  }

  lemma NoSepLiteral(s: string)
    requires forall i :: 0 <= i < |s| ==> s[i] != ','
    ensures !HasSep(s)
  {
  }
}
