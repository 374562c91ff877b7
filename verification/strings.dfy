/** Text helpers of the simulator: deleting whitespace from a JSON text and
    generating the random MQTT client identifier. */
module Strings {

  /** The characters of Java's regular-expression class `\s`. */
  const Whitespace: set<char> := {' ', '\t', '\n', '\U{000B}', '\U{000C}', '\r'}

  /** `s` with every character of `drop` deleted. */
  function Strip(s: string, drop: set<char>): (r: string)
    ensures |r| <= |s|
    ensures forall i | 0 <= i < |r| :: r[i] !in drop
  {
    if s == [] then []
    else if s[0] in drop then Strip(s[1..], drop) else [s[0]] + Strip(s[1..], drop)
  }

  /** Every kept character occurs in the result exactly as often as in `s`. */
  lemma {:induction false} StripKeepsCounts(s: string, drop: set<char>)
    ensures forall c | c !in drop :: multiset(Strip(s, drop))[c] == multiset(s)[c]
  {
    if s != [] {
      StripKeepsCounts(s[1..], drop);
      assert s == [s[0]] + s[1..];
    }
  }

  /** Deleting characters commutes with concatenation: what survives of `a + b`
      is what survives of `a` followed by what survives of `b`, so the kept
      characters stay in their original order. */
  lemma {:induction false} StripAppend(a: string, b: string, drop: set<char>)
    ensures Strip(a + b, drop) == Strip(a, drop) + Strip(b, drop)
  {
    if a == [] {
      assert a + b == b;
    } else {
      assert (a + b)[0] == a[0];
      assert (a + b)[1..] == a[1..] + b;
      StripAppend(a[1..], b, drop);
    }
  }

  /** A text that holds no dropped character is left as it is. */
  lemma {:induction false} StripNothing(s: string, drop: set<char>)
    requires forall i | 0 <= i < |s| :: s[i] !in drop
    ensures Strip(s, drop) == s
  {
    if s != [] {
      StripNothing(s[1..], drop);
    }
  }

  lemma StripIdempotent(s: string, drop: set<char>)
    ensures Strip(Strip(s, drop), drop) == Strip(s, drop)
  {
    StripNothing(Strip(s, drop), drop);
  }

  /** `minimize`: the text with all whitespace removed. */
  function Minimize(text: string): (r: string)
    ensures forall i | 0 <= i < |r| :: r[i] !in Whitespace
    ensures |r| <= |text|
  {
    Strip(text, Whitespace)
  }

  /** `minimize` keeps every other character as often as it occurs. */
  lemma MinimizeKeepsCounts(text: string)
    ensures forall c | c !in Whitespace :: multiset(Minimize(text))[c] == multiset(text)[c]
  {
    StripKeepsCounts(text, Whitespace);
  }

  lemma MinimizeIdempotent(text: string)
    ensures Minimize(Minimize(text)) == Minimize(text)
  {
    StripIdempotent(text, Whitespace);
  }

  lemma MinimizeAppend(a: string, b: string)
    ensures Minimize(a + b) == Minimize(a) + Minimize(b)
  {
    StripAppend(a, b, Whitespace);
  }

  const Digits: string := "1234567890"
  const LowercaseLetters: string := "abcdefghijklmnopqrstuvwxyz"
  const UppercaseLetters: string := "ABCDEFGHIJKLMNOPQRSTUVWXYZ"
  const ClientIdLength: nat := 26

  /** The character class a client identifier is drawn from. */
  const ClientIdAlphabet: string := Digits + LowercaseLetters + UppercaseLetters

  predicate IsAsciiAlphanumeric(c: char) {
    '0' <= c <= '9' || 'a' <= c <= 'z' || 'A' <= c <= 'Z'
  }

  /** `generate`: `max` characters of `charClass`, the `i`-th one at the index
      the random source chose in round `i` (`picks[i]`). */
  method Generate(charClass: string, max: nat, picks: seq<nat>) returns (id: string)
    requires |picks| == max
    requires forall i | 0 <= i < |picks| :: picks[i] < |charClass|
    ensures |id| == max
    ensures forall i | 0 <= i < max :: id[i] == charClass[picks[i]]
  {
    id := "";
    var i := 0;
    while i < max
      invariant 0 <= i <= max
      invariant |id| == i
      invariant forall k | 0 <= k < i :: id[k] == charClass[picks[k]]
    {
      id := id + [charClass[picks[i]]];
      i := i + 1;
    }
  }

  lemma AlphabetIsAlphanumeric()
    ensures |ClientIdAlphabet| == 62
    ensures forall i | 0 <= i < |ClientIdAlphabet| :: IsAsciiAlphanumeric(ClientIdAlphabet[i])
  {
  }

  /** Every ASCII letter and digit can occur in a client identifier. */
  lemma AlphabetCoversAlphanumerics(c: char)
    requires IsAsciiAlphanumeric(c)
    ensures c in ClientIdAlphabet
  {
    if '0' <= c <= '9' {
      assert c in Digits;
    } else if 'a' <= c <= 'z' {
      assert c in LowercaseLetters;
    } else {
      assert c in UppercaseLetters;
    }
  }

  /** `generateAwsClientId`: a 26-character identifier over digits and ASCII
      letters. */
  method GenerateAwsClientId(picks: seq<nat>) returns (id: string)
    requires |picks| == ClientIdLength
    requires forall i | 0 <= i < |picks| :: picks[i] < |ClientIdAlphabet|
    ensures |id| == 26
    ensures forall i | 0 <= i < |id| :: IsAsciiAlphanumeric(id[i])
    ensures forall i | 0 <= i < |id| :: id[i] == ClientIdAlphabet[picks[i]]
  {
    AlphabetIsAlphanumeric();
    id := Generate(ClientIdAlphabet, ClientIdLength, picks);
  }
}
