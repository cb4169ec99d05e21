/**
  Escaping of text for Telegram's "MarkdownV2 style" (escapeMarkdownV2 in
  cmd/pipe2Tel/main.go). A string is a sequence of characters, one per byte:
  every character the program escapes is ASCII, so a UTF-8 byte of a
  multi-byte character never matches one of them, and |s| is Go's len(s).

  The program escapes by calling strings.ReplaceAll once per special
  character, backslash first. The main result here is that this chain of
  rewrites equals one left-to-right pass that maps every character on its
  own (Escape), from which the length, decoding and (non-)idempotence
  facts follow.
*/
module MarkdownV2 {

  const Backslash: char := '\\'

  /** The characters escaped, in the order they are rewritten. */
  const SpecialChars: seq<char> :=
    ['\\', '[', ']', '(', ')', '~', '>', '#', '+', '-', '=', '|', '{', '}', '.', '!']

  predicate IsSpecial(c: char) {
    c in SpecialChars
  }

  /** strings.ReplaceAll(s, string(c), rep): every occurrence of c becomes rep. */
  function ReplaceAll(s: string, c: char, rep: string): (r: string)
    ensures c !in s ==> r == s
    ensures c !in rep ==> c !in r
    ensures c in rep ==> |r| >= |s|
  {
    if s == [] then []
    else (if s[0] == c then rep else [s[0]]) + ReplaceAll(s[1..], c, rep)
  }

  /** What one character becomes when the characters of cs are escaped. */
  function EscapeCharIn(x: char, cs: seq<char>): string
  {
    if x in cs then [Backslash, x] else [x]
  }

  /** One left-to-right pass escaping exactly the characters of cs. */
  function EscapeIn(s: string, cs: seq<char>): string
  {
    if s == [] then [] else EscapeCharIn(s[0], cs) + EscapeIn(s[1..], cs)
  }

  /** The single-pass reference definition of escapeMarkdownV2. */
  function Escape(s: string): string
  {
    EscapeIn(s, SpecialChars)
  }

  /** Number of characters of s that Escape rewrites. */
  function CountSpecial(s: string): nat
  {
    if s == [] then 0 else (if IsSpecial(s[0]) then 1 else 0) + CountSpecial(s[1..])
  }

  /**
    escapeMarkdownV2 as the program runs it: one ReplaceAll per special
    character, in list order. Its result is the single-pass Escape.
  */
  method EscapeMarkdownV2(input: string) returns (output: string)
    ensures output == Escape(input)
  {
    output := input;
    EscapeInNothing(input);
    for k := 0 to |SpecialChars|
      invariant output == EscapeIn(input, SpecialChars[..k])
    {
      var c := SpecialChars[k];
      assert c !in SpecialChars[..k];
      ReplaceExtendsEscape(input, SpecialChars[..k], c);
      output := ReplaceAll(output, c, [Backslash, c]);
      assert SpecialChars[..k + 1] == SpecialChars[..k] + [c];
    }
    assert SpecialChars[..|SpecialChars|] == SpecialChars;
  }

  /** Escaping no character at all leaves the text as it is. */
  lemma {:induction false} EscapeInNothing(s: string)
    ensures EscapeIn(s, []) == s
  {
    if s != [] {
      EscapeInNothing(s[1..]);
      assert s == [s[0]] + s[1..];
    }
  }

  /** ReplaceAll works piecewise on a concatenation. */
  lemma {:induction false} ReplaceAllAppend(a: string, b: string, c: char, rep: string)
    ensures ReplaceAll(a + b, c, rep) == ReplaceAll(a, c, rep) + ReplaceAll(b, c, rep)
  {
    if a == [] {
      assert a + b == b;
    } else {
      assert (a + b)[0] == a[0];
      assert (a + b)[1..] == a[1..] + b;
      ReplaceAllAppend(a[1..], b, c, rep);
    }
  }

  /**
    One step of the loop: rewriting c in text that already has the
    characters of cs escaped gives the text with cs + [c] escaped, provided
    c is new and, if c is the backslash, nothing was escaped before it.
  */
  lemma {:induction false} ReplaceExtendsEscape(s: string, cs: seq<char>, c: char)
    requires c !in cs
    requires c == Backslash ==> cs == []
    ensures ReplaceAll(EscapeIn(s, cs), c, [Backslash, c]) == EscapeIn(s, cs + [c])
  {
    if s != [] {
      var x := s[0];
      ReplaceAllAppend(EscapeCharIn(x, cs), EscapeIn(s[1..], cs), c, [Backslash, c]);
      ReplaceExtendsEscape(s[1..], cs, c);
      if x in cs {
        assert ReplaceAll([x], c, [Backslash, c]) == [x];
        assert ReplaceAll([Backslash, x], c, [Backslash, c])
            == [Backslash] + ReplaceAll([x], c, [Backslash, c]);
      } else {
        assert ReplaceAll([x], c, [Backslash, c]) == EscapeCharIn(x, cs + [c]);
      }
    }
  }

  /**
    Why the backslash goes first: rewriting it after another character
    doubles the backslash that the earlier rewrite inserted.
  */
  lemma BackslashLastDoublesEscape()
    ensures ReplaceAll(ReplaceAll("!", '!', "\\!"), Backslash, "\\\\") == "\\\\!"
    ensures EscapeIn("!", ['!', Backslash]) == "\\!"
  {
  }

  /** Escape maps each character independently, so it splits over a concatenation. */
  lemma {:induction false} EscapeAppend(a: string, b: string)
    ensures Escape(a + b) == Escape(a) + Escape(b)
  {
    if a == [] {
      assert a + b == b;
    } else {
      assert (a + b)[0] == a[0];
      assert (a + b)[1..] == a[1..] + b;
      EscapeAppend(a[1..], b);
    }
  }

  lemma {:induction false} CountSpecialAppend(a: string, b: string)
    ensures CountSpecial(a + b) == CountSpecial(a) + CountSpecial(b)
  {
    if a == [] {
      assert a + b == b;
    } else {
      assert (a + b)[0] == a[0];
      assert (a + b)[1..] == a[1..] + b;
      CountSpecialAppend(a[1..], b);
    }
  }

  /** The escaped text is one character longer per special character. */
  lemma {:induction false} EscapeLength(s: string)
    ensures |Escape(s)| == |s| + CountSpecial(s)
    ensures |s| <= |Escape(s)| <= 2 * |s|
  {
    if s != [] {
      EscapeLength(s[1..]);
    }
  }

  /** Text without special characters comes back unchanged, and only such text. */
  lemma {:induction false} EscapeUnchangedIff(s: string)
    ensures Escape(s) == s <==> CountSpecial(s) == 0
  {
    EscapeLength(s);
    if CountSpecial(s) == 0 {
      CountSpecialZeroIff(s);
      NoSpecialUnchanged(s);
    }
  }

  /** CountSpecial counts exactly the special characters: it is zero iff there are none. */
  lemma {:induction false} CountSpecialZeroIff(s: string)
    ensures CountSpecial(s) == 0 <==> forall i :: 0 <= i < |s| ==> !IsSpecial(s[i])
  {
    if s != [] {
      CountSpecialZeroIff(s[1..]);
      assert forall i :: 1 <= i < |s| ==> s[i] == s[1..][i - 1];
    }
  }

  /** Text made only of special characters doubles in length. */
  lemma {:induction false} AllSpecialDoubles(s: string)
    requires forall i :: 0 <= i < |s| ==> IsSpecial(s[i])
    ensures |Escape(s)| == 2 * |s|
  {
    EscapeLength(s);
    AllSpecialCount(s);
  }

  lemma {:induction false} AllSpecialCount(s: string)
    requires forall i :: 0 <= i < |s| ==> IsSpecial(s[i])
    ensures CountSpecial(s) == |s|
  {
    if s != [] {
      AllSpecialCount(s[1..]);
    }
  }

  /**
    Decoding: a backslash followed by any character stands for that
    character; any other character stands for itself.
  */
  function Unescape(t: string): string
    decreases |t|
  {
    if t == [] then []
    else if t[0] == Backslash && |t| >= 2 then [t[1]] + Unescape(t[2..])
    else [t[0]] + Unescape(t[1..])
  }

  /** Dropping the inserted backslashes recovers the original text. */
  lemma {:induction false} UnescapeEscape(s: string)
    ensures Unescape(Escape(s)) == s
  {
    if s != [] {
      var x, rest := s[0], Escape(s[1..]);
      UnescapeEscape(s[1..]);
      assert Escape(s) == EscapeCharIn(x, SpecialChars) + rest;
      if IsSpecial(x) {
        assert ([Backslash, x] + rest)[2..] == rest;
      } else {
        assert x != Backslash;
        assert ([x] + rest)[1..] == rest;
      }
      assert s == [x] + s[1..];
    }
  }

  /** Different texts never escape to the same text. */
  lemma EscapeInjective(a: string, b: string)
    requires Escape(a) == Escape(b)
    ensures a == b
  {
    UnescapeEscape(a);
    UnescapeEscape(b);
  }

  /** Every special character turns into two special characters. */
  lemma {:induction false} EscapeCountsDouble(s: string)
    ensures CountSpecial(Escape(s)) == 2 * CountSpecial(s)
  {
    if s != [] {
      var x := s[0];
      EscapeCountsDouble(s[1..]);
      CountSpecialAppend(EscapeCharIn(x, SpecialChars), Escape(s[1..]));
      if IsSpecial(x) {
        assert CountSpecial([Backslash, x]) == 2 by {
          assert [Backslash, x][1..] == [x];
        }
      }
    }
  }

  /**
    Escaping is not idempotent: escaping the escaped text again changes it
    exactly when the text had a special character.
  */
  lemma EscapeTwiceIff(s: string)
    ensures Escape(Escape(s)) == Escape(s) <==> CountSpecial(s) == 0
  {
    EscapeUnchangedIff(Escape(s));
    EscapeCountsDouble(s);
  }

  /** The concrete case: "!" escapes to "\!" and then to "\\\!". */
  lemma EscapeBangTwice()
    ensures Escape("!") == "\\!"
    ensures Escape(Escape("!")) == "\\\\\\!"
    ensures Escape(Escape("!")) != Escape("!")
  {
  }

  /** A typical message: "Hello! #test" escapes to "Hello\! \#test". */
  lemma EscapeGreeting()
    ensures Escape("Hello! #test") == "Hello\\! \\#test"
  {
    var hello, word := "Hello", "test";
    assert forall i :: 0 <= i < |hello| ==> !IsSpecial(hello[i]);
    assert forall i :: 0 <= i < |word| ==> !IsSpecial(word[i]);
    EscapeAroundBangHash(hello, word);
    GreetingSpelledOut();
  }

  lemma GreetingSpelledOut()
    ensures "Hello! #test" == "Hello" + ['!', ' ', '#'] + "test"
    ensures "Hello\\! \\#test" == "Hello" + [Backslash, '!', ' ', Backslash, '#'] + "test"
  {
  }

  lemma EscapeAroundBangHash(a: string, b: string)
    requires forall i :: 0 <= i < |a| ==> !IsSpecial(a[i])
    requires forall i :: 0 <= i < |b| ==> !IsSpecial(b[i])
    ensures Escape(a + ['!', ' ', '#'] + b) == a + [Backslash, '!', ' ', Backslash, '#'] + b
  {
    NoSpecialUnchanged(a);
    NoSpecialUnchanged(b);
    EscapeAppend(a + ['!', ' ', '#'], b);
    EscapeAppend(a, ['!', ' ', '#']);
    var m := ['!', ' ', '#'];
    assert m[1..][1..][1..] == [];
  }

  /** Text without special characters comes back unchanged. */
  lemma {:induction false} NoSpecialUnchanged(s: string)
    requires forall i :: 0 <= i < |s| ==> !IsSpecial(s[i])
    ensures Escape(s) == s
  {
    if s != [] {
      NoSpecialUnchanged(s[1..]);
      assert s == [s[0]] + s[1..];
    }
  }
}
