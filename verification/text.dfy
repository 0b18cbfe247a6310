/** Whitespace splitting of text lines, as Rust's `str::split_whitespace` does it. */
module Text {

  /** Rust's `char::is_whitespace`: the Unicode White_Space property. */
  predicate IsWhitespace(c: char)
  {
    || c == ' '
    || '\t' <= c <= '\r'
    || c == '\U{0085}' || c == '\U{00A0}' || c == '\U{1680}'
    || '\U{2000}' <= c <= '\U{200A}'
    || c == '\U{2028}' || c == '\U{2029}' || c == '\U{202F}' || c == '\U{205F}' || c == '\U{3000}'
  }

  predicate IsAscii(s: string)
  {
    forall i :: 0 <= i < |s| ==> s[i] < '\U{80}'
  }

  /** A token of `split_whitespace`: non-empty and free of whitespace. */
  predicate IsWord(w: string)
  {
    |w| > 0 && forall i :: 0 <= i < |w| ==> !IsWhitespace(w[i])
  }

  predicate IsBlank(s: string)
  {
    forall i :: 0 <= i < |s| ==> IsWhitespace(s[i])
  }

  /** The text with every whitespace character removed. */
  function Squeeze(s: string): string
  {
    if |s| == 0 then ""
    else (if IsWhitespace(s[0]) then "" else [s[0]]) + Squeeze(s[1..])
  }

  function Concat(ts: seq<string>): string
  {
    if |ts| == 0 then "" else ts[0] + Concat(ts[1..])
  }

  /** Words separated by single spaces: the layout `write!` produces for `"{} {} {}"`. */
  function Join(ts: seq<string>): string
  {
    if |ts| == 0 then ""
    else if |ts| == 1 then ts[0]
    else ts[0] + " " + Join(ts[1..])
  }

  /** The length of the longest whitespace-free prefix. */
  function WordLength(s: string): (n: nat)
    ensures n <= |s|
    ensures forall i :: 0 <= i < n ==> !IsWhitespace(s[i])
    ensures n < |s| ==> IsWhitespace(s[n])
  {
    if |s| == 0 || IsWhitespace(s[0]) then 0 else 1 + WordLength(s[1..])
  }

  /** Squeezing a text that starts with a word keeps that word whole. */
  lemma {:induction false} SqueezeAfterWord(s: string, n: nat)
    requires n <= |s|
    requires forall i :: 0 <= i < n ==> !IsWhitespace(s[i])
    ensures Squeeze(s) == s[..n] + Squeeze(s[n..])
  {
    if n > 0 {
      SqueezeAfterWord(s[1..], n - 1);
      assert s[1..][..n - 1] == s[1..n];
      assert s[1..][n - 1..] == s[n..];
      assert s[..n] == [s[0]] + s[1..n];
    }
  }

  lemma ConcatCons(t: string, ts: seq<string>)
    ensures Concat([t] + ts) == t + Concat(ts)
  {
    assert ([t] + ts)[1..] == ts;
  }

  predicate AllWords(ts: seq<string>)
  {
    forall i :: 0 <= i < |ts| ==> IsWord(ts[i])
  }

  predicate AllAscii(ts: seq<string>)
  {
    forall i :: 0 <= i < |ts| ==> IsAscii(ts[i])
  }

  /** Putting the leading word of `s` in front of the tokens of the rest keeps the token properties. */
  lemma PrependWord(s: string, n: nat, rest: seq<string>)
    requires 0 < n <= |s|
    requires forall i :: 0 <= i < n ==> !IsWhitespace(s[i])
    requires AllWords(rest)
    requires IsAscii(s[n..]) ==> AllAscii(rest)
    ensures AllWords([s[..n]] + rest)
    ensures IsAscii(s) ==> AllAscii([s[..n]] + rest)
  {
    var ts := [s[..n]] + rest;
    forall i | 0 <= i < |ts| ensures IsWord(ts[i]) {
      if i > 0 { assert ts[i] == rest[i - 1]; }
    }
    if IsAscii(s) {
      assert IsAscii(s[n..]) by {
        forall i | 0 <= i < |s| - n ensures s[n..][i] < '\U{80}' {
          assert s[n..][i] == s[n + i];
        }
      }
      forall i | 0 <= i < |ts| ensures IsAscii(ts[i]) {
        if i > 0 { assert ts[i] == rest[i - 1]; }
      }
    }
  }

  /** Rust's `split_whitespace`: the maximal whitespace-free runs, in order. */
  function Tokens(s: string): (ts: seq<string>)
    ensures AllWords(ts)
    ensures IsAscii(s) ==> AllAscii(ts)
    decreases |s|
  {
    if |s| == 0 then []
    else if IsWhitespace(s[0]) then
      Tokens(s[1..])
    else
      var n := WordLength(s);
      var rest := Tokens(s[n..]);
      PrependWord(s, n, rest);
      [s[..n]] + rest
  }

  /** The tokens, concatenated, are the text with its whitespace removed: nothing is lost or added. */
  lemma {:induction false} TokensKeepText(s: string)
    ensures Concat(Tokens(s)) == Squeeze(s)
    decreases |s|
  {
    if |s| > 0 {
      if IsWhitespace(s[0]) {
        TokensKeepText(s[1..]);
      } else {
        var n := WordLength(s);
        TokensKeepText(s[n..]);
        SqueezeAfterWord(s, n);
        ConcatCons(s[..n], Tokens(s[n..]));
      }
    }
  }

  /** A text with no non-blank character has no tokens. */
  lemma {:induction false} TokensOfBlank(s: string)
    requires IsBlank(s)
    ensures Tokens(s) == []
    decreases |s|
  {
    if |s| > 0 {
      TokensOfBlank(s[1..]);
    }
  }

  lemma {:induction false} WordLengthOfWord(w: string, t: string)
    requires IsWord(w)
    requires |t| == 0 || IsWhitespace(t[0])
    ensures WordLength(w + t) == |w|
    decreases |w|
  {
    assert (w + t)[1..] == w[1..] + t;
    if |w| > 1 {
      WordLengthOfWord(w[1..], t);
    }
  }

  /** A word followed by text that starts with whitespace (or nothing) is split off as the first token. */
  lemma TokensAfterWord(w: string, t: string)
    requires IsWord(w)
    requires |t| == 0 || IsWhitespace(t[0])
    ensures Tokens(w + t) == [w] + Tokens(t)
  {
    WordLengthOfWord(w, t);
    assert (w + t)[..|w|] == w;
    assert (w + t)[|w|..] == t;
  }

  /** Leading whitespace produces no token. */
  lemma {:induction false} TokensAfterBlank(b: string, t: string)
    requires IsBlank(b)
    ensures Tokens(b + t) == Tokens(t)
    decreases |b|
  {
    if |b| > 0 {
      assert (b + t)[0] == b[0] && IsWhitespace(b[0]);
      assert (b + t)[1..] == b[1..] + t;
      assert IsBlank(b[1..]) by {
        forall i | 0 <= i < |b| - 1 ensures IsWhitespace(b[1..][i]) { assert b[1..][i] == b[i + 1]; }
      }
      TokensAfterBlank(b[1..], t);
      assert Tokens(b + t) == Tokens((b + t)[1..]);
    } else {
      assert b + t == t;
    }
  }

  predicate AllBlank(seps: seq<string>)
  {
    forall i :: 0 <= i < |seps| ==> IsBlank(seps[i])
  }

  /**
    Words laid out between separators: `seps[0] + ws[0] + seps[1] + ... + ws[n-1] + seps[n]`.
   */
  function Spread(ws: seq<string>, seps: seq<string>): string
    requires |seps| == |ws| + 1
    decreases |ws|
  {
    if |ws| == 0 then seps[0] else seps[0] + (ws[0] + Spread(ws[1..], seps[1..]))
  }

  /** A layout whose first separator is blank, and non-empty when a word follows, starts blank. */
  lemma SpreadStartsBlank(ws: seq<string>, seps: seq<string>)
    requires |seps| == |ws| + 1
    requires IsBlank(seps[0]) && (|ws| > 0 ==> |seps[0]| > 0)
    ensures |Spread(ws, seps)| == 0 || IsWhitespace(Spread(ws, seps)[0])
  {
    if |ws| > 0 {
      assert Spread(ws, seps)[0] == seps[0][0];
    } else {
      assert Spread(ws, seps) == seps[0];
    }
  }

  /** Dropping the first word and separator keeps a layout's requirements. */
  lemma LayoutTail(ws: seq<string>, seps: seq<string>)
    requires |seps| == |ws| + 1 && |ws| > 0
    requires AllWords(ws) && AllBlank(seps)
    requires forall i :: 0 < i < |ws| ==> |seps[i]| > 0
    ensures AllWords(ws[1..]) && AllBlank(seps[1..])
    ensures forall i :: 0 < i < |ws| - 1 ==> |seps[1..][i]| > 0
    ensures IsBlank(seps[1..][0]) && (|ws| > 1 ==> |seps[1..][0]| > 0)
  {
    assert AllWords(ws[1..]) by {
      forall i | 0 <= i < |ws| - 1 ensures IsWord(ws[1..][i]) { assert ws[1..][i] == ws[i + 1]; }
    }
    assert AllBlank(seps[1..]) by {
      forall i | 0 <= i < |seps| - 1 ensures IsBlank(seps[1..][i]) { assert seps[1..][i] == seps[i + 1]; }
    }
    forall i | 0 < i < |ws| - 1 ensures |seps[1..][i]| > 0 { assert seps[1..][i] == seps[i + 1]; }
  }

  /**
    Splitting words separated by any runs of whitespace, with any whitespace
    before the first and after the last, gives back exactly those words:
    tokens are the maximal whitespace-free runs.
   */
  lemma {:induction false} TokensOfSpread(ws: seq<string>, seps: seq<string>)
    requires |seps| == |ws| + 1
    requires AllWords(ws) && AllBlank(seps)
    requires forall i :: 0 < i < |ws| ==> |seps[i]| > 0
    ensures Tokens(Spread(ws, seps)) == ws
    decreases |ws|
  {
    if |ws| == 0 {
      TokensOfBlank(seps[0]);
    } else {
      var rest := Spread(ws[1..], seps[1..]);
      assert Spread(ws, seps) == seps[0] + (ws[0] + rest);
      LayoutTail(ws, seps);
      SpreadStartsBlank(ws[1..], seps[1..]);
      TokensAfterBlank(seps[0], ws[0] + rest);
      TokensAfterWord(ws[0], rest);
      TokensOfSpread(ws[1..], seps[1..]);
      assert [ws[0]] + ws[1..] == ws;
    }
  }

  lemma JoinCons(ts: seq<string>, tail: string)
    requires |ts| >= 2
    ensures Join(ts) + tail == ts[0] + (" " + (Join(ts[1..]) + tail))
  {
  }

  /** Three joined words, spelled out. */
  lemma JoinThree(a: string, b: string, c: string)
    ensures Join([a, b, c]) == a + " " + b + " " + c
  {
    assert [a, b, c][1..] == [b, c];
    assert Join([b, c]) == b + " " + c by {
      assert [b, c][1..] == [c];
    }
    assert a + " " + (b + " " + c) == a + " " + b + " " + c;
  }

  /** Four joined words, spelled out. */
  lemma JoinFour(a: string, b: string, c: string, d: string)
    ensures Join([a, b, c, d]) == a + " " + b + " " + c + " " + d
  {
    assert [a, b, c, d][1..] == [b, c, d];
    JoinThree(b, c, d);
    assert a + " " + (b + " " + c + " " + d) == a + " " + b + " " + c + " " + d;
  }

  /** Joining one more word adds a space and that word at the end. */
  lemma {:induction false} JoinSnoc(ts: seq<string>, w: string)
    requires |ts| > 0
    ensures Join(ts + [w]) == Join(ts) + " " + w
  {
    if |ts| == 1 {
      assert ts + [w] == [ts[0], w] && [ts[0], w][1..] == [w];
    } else {
      assert (ts + [w])[1..] == ts[1..] + [w];
      JoinSnoc(ts[1..], w);
      assert ts[0] + " " + (Join(ts[1..]) + " " + w) == ts[0] + " " + Join(ts[1..]) + " " + w;
    }
  }

  /** Splitting space-joined words, followed by any whitespace, gives the words back. */
  lemma {:induction false} TokensOfJoin(ts: seq<string>, tail: string)
    requires AllWords(ts)
    requires IsBlank(tail)
    ensures Tokens(Join(ts) + tail) == ts
    decreases |ts|
  {
    TokensOfBlank(tail);
    if |ts| == 0 {
      assert Join(ts) + tail == tail;
    } else if |ts| == 1 {
      TokensAfterWord(ts[0], tail);
    } else {
      var after := Join(ts[1..]) + tail;
      JoinCons(ts, tail);
      TokensAfterWord(ts[0], " " + after);
      TokensAfterBlank(" ", after);
      TokensOfJoin(ts[1..], tail);
      assert [ts[0]] + ts[1..] == ts;
    }
  }

  lemma {:induction false} JoinAscii(ts: seq<string>)
    requires AllAscii(ts)
    ensures IsAscii(Join(ts))
    decreases |ts|
  {
    if |ts| > 1 {
      JoinAscii(ts[1..]);
    }
  }
}
