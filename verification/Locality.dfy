/** The scanner looks at no byte after the token it returns, except to see that it ends there: on a window
    of the document that contains the token, it returns the same token. */
module Locality {
  import opened Bytes
  import opened Scanner
  import opened ReaderSpec
  import Strings

  /** `sub` is the window [a, b) of `doc`, and `p` a position in it. */
  predicate Window(doc: bytes, a: nat, b: nat, sub: bytes, p: nat) {
    a <= p <= b <= |doc| && sub == doc[a..b]
  }

  lemma WindowOnward(doc: bytes, a: nat, b: nat, sub: bytes, p: nat, q: nat)
    requires Window(doc, a, b, sub, p) && p <= q <= b
    ensures a <= p && b <= |doc| && |sub| == b - a && Window(doc, a, b, sub, q)
  {}

  function Shifted(t: Token, a: nat): Token
    requires a <= t.start <= t.end
  {
    Token(t.kind, t.start - a, t.end - a)
  }

  lemma {:induction false} SkipSpacesLocal(doc: bytes, a: nat, b: nat, sub: bytes, p: nat)
    requires Window(doc, a, b, sub, p)
    ensures SkipSpaces(sub, p - a) + a == Min(SkipSpaces(doc, p), b)
    decreases |doc| - p
  {
    if p < b && IsSpace(doc[p]) {
      SkipSpacesLocal(doc, a, b, sub, p + 1);
    }
  }

  lemma {:induction false} ScanStringLocal(doc: bytes, a: nat, b: nat, sub: bytes, p: nat, quote: byte)
    requires Window(doc, a, b, sub, p) && ScanString(doc, p, quote).1 <= b
    ensures var r := ScanString(doc, p, quote); a <= r.1 && ScanString(sub, p - a, quote) == (r.0, r.1 - a)
    decreases |doc| - p
  {
    if p < |doc| {
      if doc[p] == '\\' {
        ScanStringLocal(doc, a, b, sub, if p + 1 < |doc| then p + 2 else p + 1, quote);
      } else if doc[p] != quote {
        ScanStringLocal(doc, a, b, sub, p + 1, quote);
      }
    }
  }

  lemma {:induction false} ScanDigitsLocal(doc: bytes, a: nat, b: nat, sub: bytes, p: nat)
    requires Window(doc, a, b, sub, p)
    ensures ScanDigits(sub, p - a) + a == Min(ScanDigits(doc, p), b)
    decreases |doc| - p
  {
    if p < b && IsDigit(doc[p]) {
      ScanDigitsLocal(doc, a, b, sub, p + 1);
    }
  }

  lemma ScanFractionLocal(doc: bytes, a: nat, b: nat, sub: bytes, p: nat)
    requires Window(doc, a, b, sub, p)
    ensures ScanFraction(sub, p - a) + a == Min(ScanFraction(doc, p), b)
  {
    if p < b && doc[p] == '.' {
      ScanDigitsLocal(doc, a, b, sub, p + 1);
    }
  }

  lemma ScanExponentLocal(doc: bytes, a: nat, b: nat, sub: bytes, p: nat)
    requires Window(doc, a, b, sub, p)
    ensures ScanExponent(sub, p - a) + a == Min(ScanExponent(doc, p), b)
  {
    if p < b && (doc[p] == 'e' || doc[p] == 'E') {
      ScanDigitsLocal(doc, a, b, sub, p + 1);
      if p + 1 < b && (doc[p + 1] == '+' || doc[p + 1] == '-') {
        ScanDigitsLocal(doc, a, b, sub, p + 2);
      }
    }
  }

  lemma ScanNumberLocal(doc: bytes, a: nat, b: nat, sub: bytes, p: nat, checkInf: bool)
    requires Window(doc, a, b, sub, p) && ScanNumber(doc, p, checkInf).1 <= b
    ensures var r := ScanNumber(doc, p, checkInf); a <= r.1 && ScanNumber(sub, p - a, checkInf) == (r.0, r.1 - a)
  {
    hide ScanDigits, ScanFraction, ScanExponent;
    var q := ScanDigits(doc, p);
    ScanDigitsLocal(doc, a, b, sub, p);
    if q <= b {
      var r := ScanFraction(doc, q);
      ScanFractionLocal(doc, a, b, sub, q);
      if r <= b {
        ScanExponentLocal(doc, a, b, sub, r);
      }
    }
  }

  lemma {:induction false} ScanCStyleLocal(doc: bytes, a: nat, b: nat, sub: bytes, p: nat)
    requires Window(doc, a, b, sub, p)
    requires var q := ScanCStyle(doc, p); q < b || q == b == |doc|
    ensures a <= ScanCStyle(doc, p) && ScanCStyle(sub, p - a) == ScanCStyle(doc, p) - a
    decreases |doc| - p
  {
    if p + 1 < |doc| && !(doc[p] == '*' && doc[p + 1] == '/') {
      ScanCStyleLocal(doc, a, b, sub, p + 1);
    }
  }

  lemma {:induction false} ScanCppStyleLocal(doc: bytes, a: nat, b: nat, sub: bytes, p: nat)
    requires Window(doc, a, b, sub, p) && ScanCppStyle(doc, p) <= b
    ensures a <= ScanCppStyle(doc, p) && ScanCppStyle(sub, p - a) == ScanCppStyle(doc, p) - a
    decreases |doc| - p
  {
    if p < |doc| && doc[p] != '\n' && doc[p] != '\r' {
      ScanCppStyleLocal(doc, a, b, sub, p + 1);
    }
  }

  lemma ScanCommentLocal(doc: bytes, a: nat, b: nat, sub: bytes, p: nat)
    requires Window(doc, a, b, sub, p) && ScanComment(doc, p).1 <= b
    ensures var r := ScanComment(doc, p); a <= r.1 && ScanComment(sub, p - a) == (r.0, r.1 - a)
  {
    if p < |doc| && doc[p] == '*' {
      ScanCStyleLocal(doc, a, b, sub, p + 1);
    } else if p < |doc| && doc[p] == '/' {
      ScanCppStyleLocal(doc, a, b, sub, p + 1);
    }
  }

  lemma MatchLocal(doc: bytes, a: nat, b: nat, sub: bytes, p: nat, pattern: bytes)
    requires Window(doc, a, b, sub, p) && Match(doc, p, pattern).1 <= b
    ensures var r := Match(doc, p, pattern); a <= r.1 && Match(sub, p - a, pattern) == (r.0, r.1 - a)
  {
    if At(doc, p, pattern) && p + |pattern| <= b {
      forall i | 0 <= i < |pattern| ensures sub[p - a + i] == pattern[i] {
        assert doc[p + i] == pattern[i];
      }
    }
    if At(sub, p - a, pattern) {
      forall i | 0 <= i < |pattern| ensures doc[p + i] == pattern[i] {
        assert sub[p - a + i] == pattern[i];
      }
    }
  }

  lemma SignedLocal(f: Features, doc: bytes, a: nat, b: nat, sub: bytes, s: nat, infinity: TokenType)
    requires Window(doc, a, b, sub, s) && s < |doc| && SignedToken(f, doc, s, infinity).end <= b
    ensures SignedToken(f, sub, s - a, infinity) == Shifted(SignedToken(f, doc, s, infinity), a)
  {
    hide ScanNumber, Match;
    var r := ScanNumber(doc, s + 1, true);
    ScanNumberLocal(doc, a, b, sub, s + 1, true);
    if !r.0 && f.allowSpecialFloats {
      MatchLocal(doc, a, b, sub, r.1, "nfinity");
    }
  }

  /** The tokens whose scan goes beyond their first byte. */
  lemma LongTokenLocal(f: Features, doc: bytes, a: nat, b: nat, sub: bytes, s: nat)
    requires Window(doc, a, b, sub, s) && s < |doc| && TokenFrom(f, doc, s).end <= b
    ensures var c := doc[s];
      (c == '"' || c == '\'' || c == '/' || IsDigit(c) || c == '-' || c == '+') ==>
      TokenFrom(f, sub, s - a) == Shifted(TokenFrom(f, doc, s), a)
  {
    hide ScanString, ScanComment, ScanNumber, SignedToken;
    var c := doc[s];
    assert sub[s - a] == c;
    if c == '"' {
      ScanStringLocal(doc, a, b, sub, s + 1, '"');
    } else if c == '\'' {
      if f.allowSingleQuotes {
        ScanStringLocal(doc, a, b, sub, s + 1, '\'');
      }
    } else if c == '/' {
      ScanCommentLocal(doc, a, b, sub, s + 1);
    } else if IsDigit(c) {
      ScanNumberLocal(doc, a, b, sub, s + 1, false);
    } else if c == '-' {
      SignedLocal(f, doc, a, b, sub, s, NegInfToken);
    } else if c == '+' {
      SignedLocal(f, doc, a, b, sub, s, PosInfToken);
    }
  }

  lemma WordTokenLocal(f: Features, doc: bytes, a: nat, b: nat, sub: bytes, s: nat)
    requires Window(doc, a, b, sub, s) && s < |doc| && TokenFrom(f, doc, s).end <= b
    ensures var c := doc[s];
      (c == 't' || c == 'f' || c == 'n' || c == 'N' || c == 'I') ==>
      TokenFrom(f, sub, s - a) == Shifted(TokenFrom(f, doc, s), a)
  {
    hide Match;
    var c := doc[s];
    assert sub[s - a] == c;
    if c == 't' {
      MatchLocal(doc, a, b, sub, s + 1, "rue");
    } else if c == 'f' {
      MatchLocal(doc, a, b, sub, s + 1, "alse");
    } else if c == 'n' {
      MatchLocal(doc, a, b, sub, s + 1, "ull");
    } else if c == 'N' && f.allowSpecialFloats {
      MatchLocal(doc, a, b, sub, s + 1, "aN");
    } else if c == 'I' && f.allowSpecialFloats {
      MatchLocal(doc, a, b, sub, s + 1, "nfinity");
    }
  }

  lemma TokenFromLocal(f: Features, doc: bytes, a: nat, b: nat, sub: bytes, s: nat)
    requires Window(doc, a, b, sub, s) && s < |doc| && TokenFrom(f, doc, s).end <= b
    ensures TokenFrom(f, sub, s - a) == Shifted(TokenFrom(f, doc, s), a)
  {
    hide ScanString, ScanComment, ScanNumber, SignedToken, Match;
    LongTokenLocal(f, doc, a, b, sub, s);
    WordTokenLocal(f, doc, a, b, sub, s);
    assert sub[s - a] == doc[s];
  }

  /** readToken on a window that reaches the end of the token, whatever the token is. */
  lemma ReadTokenLocal(f: Features, doc: bytes, a: nat, b: nat, sub: bytes, p: nat)
    requires Window(doc, a, b, sub, p) && ReadToken(f, doc, p).end <= b
    ensures ReadToken(f, sub, p - a) == Shifted(ReadToken(f, doc, p), a)
  {
    hide SkipSpaces, TokenFrom;
    var s := SkipSpaces(doc, p);
    SkipSpacesLocal(doc, a, b, sub, p);
    if s < |doc| {
      TokenFromLocal(f, doc, a, b, sub, s);
    }
  }

  lemma {:induction false} NextTokenLocal(f: Features, doc: bytes, a: nat, b: nat, sub: bytes, p: nat)
    requires Window(doc, a, b, sub, p) && NextToken(f, doc, p).end <= b
    ensures NextToken(f, sub, p - a) == Shifted(NextToken(f, doc, p), a)
    decreases |doc| - p
  {
    hide ReadToken;
    var t := ReadToken(f, doc, p);
    if t.kind == Comment {
      NextTokenLocal(f, doc, a, b, sub, t.end);
    }
    ReadTokenLocal(f, doc, a, b, sub, p);
  }

  lemma SkipCommentsLocal(f: Features, doc: bytes, a: nat, b: nat, sub: bytes, p: nat)
    requires Window(doc, a, b, sub, p) && SkipComments(f, doc, p).end <= b
    ensures SkipComments(f, sub, p - a) == Shifted(SkipComments(f, doc, p), a)
  {
    hide ReadToken, NextToken;
    if f.allowComments {
      NextTokenLocal(f, doc, a, b, sub, p);
    } else {
      ReadTokenLocal(f, doc, a, b, sub, p);
    }
  }

  lemma SliceOfWindow(doc: bytes, a: nat, b: nat, i: nat, j: nat)
    requires a <= i <= j <= b <= |doc|
    ensures doc[a..b][i - a..j - a] == doc[i..j]
  {
    forall k | 0 <= k < j - i ensures doc[a..b][i - a..j - a][k] == doc[i..j][k] {
      assert doc[a..b][i - a + k] == doc[i + k];
    }
  }

  /** What a token stands for depends on its bytes alone. */
  lemma NameOfLocal(f: Features, doc: bytes, a: nat, b: nat, sub: bytes, t: Token)
    requires Window(doc, a, b, sub, t.start) && t.start < t.end <= b && (t.kind == StringToken ==> t.start + 2 <= t.end)
    ensures NameOf(f, sub, Shifted(t, a)) == NameOf(f, doc, t)
  {
    hide Strings.Unescape;
    SliceOfWindow(doc, a, b, t.start, t.end);
    if t.kind == StringToken {
      SliceOfWindow(doc, a, b, t.start + 1, t.end - 1);
    }
  }
}
