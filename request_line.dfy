/** The request-line split of handle_request: sscanf(buffer, "%s %s %s",
    method, path, version). Each %s skips whitespace and then stores the
    longest run of non-whitespace characters; the spaces of the format
    skip whitespace too. The split reads the whole request text, so when
    the first line holds fewer than three words the remaining ones are
    taken from the following lines. */
module RequestLine {
  import opened CText

  /** Every element is a non-empty run of non-whitespace characters. */
  predicate AllWords(ws: seq<seq<char>>) {
    forall k :: 0 <= k < |ws| ==> ws[k] != [] && NoSpaces(ws[k])
  }

  /** The words the first `n` %s conversions store; fewer when the text runs out of words. */
  function Tokens(s: seq<char>, n: nat): (r: seq<seq<char>>)
    ensures |r| <= n
    decreases n
  {
    var t := SkipSpaces(s);
    if n == 0 || t == [] then []
    else
      var w := Word(t);
      [w] + Tokens(t[|w|..], n - 1)
  }

  /** Each token is a non-empty run of non-whitespace characters. */
  lemma {:induction false} TokensAreWords(s: seq<char>, n: nat)
    ensures AllWords(Tokens(s, n))
    decreases n
  {
    var t := SkipSpaces(s);
    if n > 0 && t != [] {
      var w := Word(t);
      SkipSpacesProps(s);
      WordProps(t);
      assert w != [] && NoSpaces(w);
      TokensAreWords(t[|w|..], n - 1);
    }
  }

  /** Words taken from a C string hold no NUL either. */
  lemma {:induction false} TokensNoNul(s: seq<char>, n: nat)
    requires NoNul(s)
    ensures forall k :: 0 <= k < |Tokens(s, n)| ==> NoNul(Tokens(s, n)[k])
    decreases n
  {
    var t := SkipSpaces(s);
    if n > 0 && t != [] {
      var w := Word(t);
      SkipSpacesProps(s);
      WordProps(t);
      assert NoNul(w) by {
        forall i | 0 <= i < |w| ensures w[i] != NUL {
          assert w[i] == t[i] == s[|s| - |t| + i];
        }
      }
      assert NoNul(t[|w|..]) by {
        forall i | 0 <= i < |t| - |w| ensures t[|w|..][i] != NUL {
          assert t[|w|..][i] == s[|s| - |t| + |w| + i];
        }
      }
      TokensNoNul(t[|w|..], n - 1);
    }
  }

  /** No word is longer than the text it is taken from. */
  lemma {:induction false} TokensShorter(s: seq<char>, n: nat)
    ensures forall k :: 0 <= k < |Tokens(s, n)| ==> |Tokens(s, n)[k]| <= |s|
    decreases n
  {
    var t := SkipSpaces(s);
    if n > 0 && t != [] {
      var w := Word(t);
      WordProps(t);
      TokensShorter(t[|w|..], n - 1);
    }
  }

  /** Text made of whitespace only yields no words. */
  lemma BlankHasNoTokens(ws: seq<char>, n: nat)
    requires AllSpaces(ws)
    ensures Tokens(ws, n) == []
  {
    SkipSpacesOf(ws, []);
    assert ws + [] == ws;
  }

  /** A word ended by whitespace or by the end of the text is the first token. */
  lemma TokensWord(w: seq<char>, rest: seq<char>, n: nat)
    requires w != [] && NoSpaces(w)
    requires rest == [] || IsSpace(rest[0])
    requires n > 0
    ensures Tokens(w + rest, n) == [w] + Tokens(rest, n - 1)
  {
    WordOf(w, rest);
    assert (w + rest)[|w|..] == rest;
  }

  /** Putting a word in front of text that starts with whitespace puts it in front of the tokens. */
  lemma PrependWord(w: seq<char>, tail: seq<char>, words: seq<seq<char>>)
    requires w != [] && NoSpaces(w)
    requires tail != [] && IsSpace(tail[0])
    requires Tokens(tail, |words|) == words
    ensures Tokens(w + tail, |words| + 1) == [w] + words
  {
    TokensWord(w, tail, |words| + 1);
  }

  /** After whitespace, a word ended by whitespace or by the end of the text is the next token. */
  lemma TokensCons(ws: seq<char>, w: seq<char>, rest: seq<char>, n: nat)
    requires AllSpaces(ws)
    requires w != [] && NoSpaces(w)
    requires rest == [] || IsSpace(rest[0])
    requires n > 0
    ensures Tokens(ws + (w + rest), n) == [w] + Tokens(rest, n - 1)
  {
    SkipSpacesOf(ws, w + rest);
    TokensWord(w, rest, n);
  }

  /** The last two words of a request line, each after one space. */
  lemma SplitPathVersion(path: seq<char>, version: seq<char>, rest: seq<char>)
    requires path != [] && NoSpaces(path)
    requires version != [] && NoSpaces(version)
    requires rest == [] || IsSpace(rest[0])
    ensures Tokens(" " + (path + (" " + (version + rest))), 2) == [path, version]
  {
    var tail := " " + (version + rest);
    assert Tokens(tail, 1) == [version] by {
      TokensCons(" ", version, rest, 1);
      assert Tokens(rest, 0) == [];
    }
    TokensCons(" ", path, tail, 2);
  }

  /** "GET /path HTTP/1.1" followed by a line break splits into exactly its three words. */
  lemma SplitRequestLine(httpMethod: seq<char>, path: seq<char>, version: seq<char>, rest: seq<char>)
    requires httpMethod != [] && NoSpaces(httpMethod)
    requires path != [] && NoSpaces(path)
    requires version != [] && NoSpaces(version)
    requires rest == [] || IsSpace(rest[0])
    ensures Tokens(httpMethod + (" " + (path + (" " + (version + rest)))), 3) == [httpMethod, path, version]
  {
    var tail := " " + (path + (" " + (version + rest)));
    SplitPathVersion(path, version, rest);
    PrependWord(httpMethod, tail, [path, version]);
  }
}
