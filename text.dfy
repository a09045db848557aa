/** The two JavaScript string operations the ledger's lookups depend on:
    `String.prototype.trim` and `String.prototype.toUpperCase`. */
module Text {

  /** The characters `trim` removes: ECMAScript WhiteSpace (tab, vertical tab,
      form feed, the byte-order mark and every space separator) and
      LineTerminator (LF, CR, U+2028, U+2029). */
  predicate IsSpace(c: char) {
    c in {'\t', '\n', '\U{000B}', '\U{000C}', '\r', ' ', '\U{00A0}', '\U{1680}',
          '\U{2028}', '\U{2029}', '\U{202F}', '\U{205F}', '\U{3000}', '\U{FEFF}'}
    || '\U{2000}' <= c <= '\U{200A}'
  }

  predicate AllSpace(s: string) {
    forall i :: 0 <= i < |s| ==> IsSpace(s[i])
  }

  /** Neither end of `s` is a space character. */
  predicate IsTrimmed(s: string) {
    s == [] || (!IsSpace(s[0]) && !IsSpace(s[|s| - 1]))
  }

  /** `s` without its leading space characters. */
  function TrimStart(s: string): (r: string)
    ensures |r| <= |s|
  {
    if s != [] && IsSpace(s[0]) then TrimStart(s[1..]) else s
  }

  /** `s` without its trailing space characters. */
  function TrimEnd(s: string): (r: string)
    ensures |r| <= |s|
  {
    if s != [] && IsSpace(s[|s| - 1]) then TrimEnd(s[..|s| - 1]) else s
  }

  /** `TrimStart` keeps the longest suffix of `s` whose removed prefix is all
      spaces and which does not itself start with one. */
  lemma {:induction false} TrimStartRemovesSpacePrefix(s: string)
    ensures var r := TrimStart(s);
            && r == s[|s| - |r|..]
            && AllSpace(s[..|s| - |r|])
            && (r == [] || !IsSpace(r[0]))
  {
    if s != [] && IsSpace(s[0]) {
      TrimStartRemovesSpacePrefix(s[1..]);
      var r := TrimStart(s);
      assert s[..|s| - |r|] == [s[0]] + s[1..][..|s| - 1 - |r|];
    }
  }

  /** `TrimEnd` keeps the longest prefix of `s` whose removed suffix is all
      spaces and which does not itself end with one. */
  lemma {:induction false} TrimEndRemovesSpaceSuffix(s: string)
    ensures var r := TrimEnd(s);
            && r == s[..|r|]
            && AllSpace(s[|r|..])
            && (r == [] || !IsSpace(r[|r| - 1]))
  {
    if s != [] && IsSpace(s[|s| - 1]) {
      TrimEndRemovesSpaceSuffix(s[..|s| - 1]);
      var r := TrimEnd(s);
      assert s[|r|..] == s[..|s| - 1][|r|..] + [s[|s| - 1]];
    }
  }

  /** JavaScript's `s.trim()`. */
  function Trim(s: string): (r: string)
    ensures IsTrimmed(r) && |r| <= |s|
    ensures r == [] <==> AllSpace(s)
  {
    var t := TrimStart(s);
    var r := TrimEnd(t);
    assert IsTrimmed(r) && (r == [] <==> AllSpace(s)) by {
      TrimStartRemovesSpacePrefix(s);
      TrimEndRemovesSpaceSuffix(t);
      assert r != [] ==> r[0] == t[0];
      if r == [] {
        assert t[0..] == t;
        assert s == s[..|s| - |t|] + t;
      }
    }
    r
  }

  /** The upper-case form of one character, for the ASCII letters. */
  function UpperChar(c: char): char {
    if 'a' <= c <= 'z' then (c as int - 'a' as int + 'A' as int) as char else c
  }

  /** JavaScript's `s.toUpperCase()`, on the ASCII letters. */
  function ToUpper(s: string): (r: string)
    ensures |r| == |s|
    ensures forall i :: 0 <= i < |r| ==> !('a' <= r[i] <= 'z')
    ensures forall i :: 0 <= i < |s| && !('a' <= s[i] <= 'z') ==> r[i] == s[i]
    ensures forall i :: 0 <= i < |s| && 'a' <= s[i] <= 'z' ==> r[i] == "ABCDEFGHIJKLMNOPQRSTUVWXYZ"[s[i] as int - 'a' as int]
  {
    seq(|s|, i requires 0 <= i < |s| => UpperChar(s[i]))
  }

  lemma {:induction false} TrimStartOfPadded(p: string, s: string)
    requires AllSpace(p)
    ensures TrimStart(p + s) == TrimStart(s)
  {
    if p != [] {
      assert (p + s)[1..] == p[1..] + s;
      TrimStartOfPadded(p[1..], s);
    } else {
      assert p + s == s;
    }
  }

  lemma {:induction false} TrimEndOfPadded(s: string, q: string)
    requires AllSpace(q)
    ensures TrimEnd(s + q) == TrimEnd(s)
  {
    if q != [] {
      var q' := q[..|q| - 1];
      assert (s + q)[..|s + q| - 1] == s + q';
      TrimEndOfPadded(s, q');
    } else {
      assert s + q == s;
    }
  }

  /** Trailing spaces do not change what `Trim` keeps. */
  lemma {:induction false} TrimOfTrailing(s: string, q: string)
    requires AllSpace(q)
    ensures Trim(s + q) == Trim(s)
  {
    if s == [] {
      assert s + q == q;
      TrimStartOfPadded(q, []);
      assert q + [] == q;
    } else if IsSpace(s[0]) {
      assert (s + q)[1..] == s[1..] + q;
      TrimOfTrailing(s[1..], q);
    } else {
      TrimEndOfPadded(s, q);
    }
  }

  /** `trim` ignores any surrounding space characters: together with
      `Trim`'s own postcondition and `TrimOfTrimmed` this determines it. */
  lemma TrimOfPadded(p: string, s: string, q: string)
    requires AllSpace(p) && AllSpace(q)
    ensures Trim(p + s + q) == Trim(s)
  {
    var padded := p + (s + q);
    assert p + s + q == padded;
    TrimStartOfPadded(p, s + q);
    assert Trim(padded) == TrimEnd(TrimStart(padded)) == TrimEnd(TrimStart(s + q)) == Trim(s + q);
    TrimOfTrailing(s, q);
  }

  lemma TrimOfTrimmed(s: string)
    requires IsTrimmed(s)
    ensures Trim(s) == s
  {
  }

  lemma TrimIdempotent(s: string)
    ensures Trim(Trim(s)) == Trim(s)
  {
    TrimOfTrimmed(Trim(s));
  }

  lemma UpperCharKeepsSpaces(c: char)
    ensures IsSpace(UpperChar(c)) == IsSpace(c)
  {
  }

  lemma UpperIdempotent(s: string)
    ensures ToUpper(ToUpper(s)) == ToUpper(s)
  {
  }

  lemma {:induction false} TrimStartOfUpper(s: string)
    ensures TrimStart(ToUpper(s)) == ToUpper(TrimStart(s))
  {
    if s != [] {
      UpperCharKeepsSpaces(s[0]);
      assert ToUpper(s)[1..] == ToUpper(s[1..]);
      TrimStartOfUpper(s[1..]);
    }
  }

  lemma {:induction false} TrimEndOfUpper(s: string)
    ensures TrimEnd(ToUpper(s)) == ToUpper(TrimEnd(s))
  {
    if s != [] {
      UpperCharKeepsSpaces(s[|s| - 1]);
      assert ToUpper(s)[..|s| - 1] == ToUpper(s[..|s| - 1]);
      TrimEndOfUpper(s[..|s| - 1]);
    }
  }

  /** Upper-casing before or after trimming gives the same string. */
  lemma TrimCommutesWithUpper(s: string)
    ensures Trim(ToUpper(s)) == ToUpper(Trim(s))
  {
    TrimStartOfUpper(s);
    TrimEndOfUpper(TrimStart(s));
  }
}
