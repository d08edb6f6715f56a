/** `" ".join(s.split())`: whitespace runs collapsed to one space, ends trimmed. */
module Whitespace {

  /** The longest prefix of `s` without whitespace. */
  function Word(s: string, isSpace: char -> bool): (w: string)
    ensures |w| <= |s| && w == s[..|w|]
    ensures forall i | 0 <= i < |w| :: !isSpace(w[i])
    ensures |w| < |s| ==> isSpace(s[|w|])
  {
    if s == "" || isSpace(s[0]) then "" else [s[0]] + Word(s[1..], isSpace)
  }

  /** `s.split()`. */
  function Split(s: string, isSpace: char -> bool): seq<string>
    decreases |s|
  {
    if s == "" then []
    else if isSpace(s[0]) then Split(s[1..], isSpace)
    else var w := Word(s, isSpace); [w] + Split(s[|w|..], isSpace)
  }

  /** `" ".join(words)`. */
  function Join(words: seq<string>): string {
    if words == [] then ""
    else if |words| == 1 then words[0]
    else words[0] + " " + Join(words[1..])
  }

  function Collapse(s: string, isSpace: char -> bool): string {
    Join(Split(s, isSpace))
  }

  predicate Clean(words: seq<string>, isSpace: char -> bool) {
    forall i | 0 <= i < |words| ::
      words[i] != "" && forall j | 0 <= j < |words[i]| :: !isSpace(words[i][j])
  }

  lemma {:induction false} SplitIsClean(s: string, isSpace: char -> bool)
    ensures Clean(Split(s, isSpace), isSpace)
    decreases |s|
  {
    if s == "" {
    } else if isSpace(s[0]) {
      SplitIsClean(s[1..], isSpace);
    } else {
      var w := Word(s, isSpace);
      SplitIsClean(s[|w|..], isSpace);
    }
  }

  lemma {:induction false} WordThenSpace(w: string, rest: string, isSpace: char -> bool)
    requires forall i | 0 <= i < |w| :: !isSpace(w[i])
    requires rest == "" || isSpace(rest[0])
    ensures Word(w + rest, isSpace) == w
  {
    if w == "" {
      assert w + rest == rest;
    } else {
      assert (w + rest)[1..] == w[1..] + rest;
      WordThenSpace(w[1..], rest, isSpace);
      assert [w[0]] + w[1..] == w;
    }
  }

  lemma {:induction false} SplitOfJoin(words: seq<string>, isSpace: char -> bool)
    requires Clean(words, isSpace) && isSpace(' ')
    ensures Split(Join(words), isSpace) == words
    decreases |words|
  {
    if words != [] {
      var w, tail := words[0], words[1..];
      SplitOfJoin(tail, isSpace);
      var rest := if tail == [] then "" else " " + Join(tail);
      assert Join(words) == w + rest;
      WordThenSpace(w, rest, isSpace);
      assert (w + rest)[0] == w[0] && !isSpace(w[0]);
      assert (w + rest)[|w|..] == rest;
      assert tail != [] ==> rest[0] == ' ' && rest[1..] == Join(tail);
      assert Split(rest, isSpace) == tail;
      assert [w] + tail == words;
    }
  }

  /** Collapsing twice is collapsing once, for every string and every notion of whitespace. */
  lemma CollapseIsIdempotent(s: string, isSpace: char -> bool)
    requires isSpace(' ')
    ensures Collapse(Collapse(s, isSpace), isSpace) == Collapse(s, isSpace)
  {
    SplitIsClean(s, isSpace);
    SplitOfJoin(Split(s, isSpace), isSpace);
  }
}

/** The spellings a payee goes by, and the index that finds them. */
module PayeeIdentities {
  import opened Common
  import opened Whitespace
  import opened BlindIndexes

  /** Whitespace and case folding, as Python's `str` defines them. */
  datatype Folding = Folding(isSpace: char -> bool, casefold: string -> string)

  function IdentityKey(f: Folding, pattern: string): string {
    f.casefold(Collapse(pattern, f.isSpace))
  }

  /** The blind index a spelling is looked up by. */
  function IdentityIndex(lib: IndexLibrary, key: Bytes, f: Folding, pattern: string): string {
    Index(lib, key, Normalised, Some(IdentityKey(f, pattern))).value
  }

  class PayeeIdentity {
    var pattern: string
    var patternKey: string
    var caseSensitive: bool

    /** The two columns belong together. */
    ghost predicate Valid(lib: IndexLibrary, key: Bytes, f: Folding)
      reads this
    {
      && patternKey == IdentityIndex(lib, key, f, pattern)
      && Collapse(pattern, f.isSpace) == pattern
    }

    constructor (lib: IndexLibrary, key: Bytes, f: Folding, value: string, caseSensitive: bool)
      requires f.isSpace(' ')
      ensures Valid(lib, key, f) && pattern == Collapse(value, f.isSpace) && this.caseSensitive == caseSensitive
    {
      this.caseSensitive := caseSensitive;
      new;
      DeriveKey(lib, key, f, value);
    }

    /** The hook on assignment to `pattern`. */
    method DeriveKey(lib: IndexLibrary, key: Bytes, f: Folding, value: string)
      requires f.isSpace(' ')
      modifies this`pattern, this`patternKey
      ensures Valid(lib, key, f) && pattern == Collapse(value, f.isSpace)
    {
      CollapseIsIdempotent(value, f.isSpace);
      var cleaned := Collapse(value, f.isSpace);
      patternKey := IdentityIndex(lib, key, f, cleaned);
      pattern := cleaned;
    }

    /** Does this spelling belong to the payee? Whatever is accepted has the stored index as its own. */
    method Matches(lib: IndexLibrary, key: Bytes, f: Folding, raw: string) returns (yes: bool)
      requires f.isSpace(' ') && Valid(lib, key, f)
      ensures yes <==> Accepts(f, pattern, caseSensitive, raw)
      ensures yes ==> IdentityIndex(lib, key, f, raw) == patternKey
    {
      var cleaned := Collapse(raw, f.isSpace);
      if caseSensitive {
        yes := pattern == cleaned;
      } else {
        yes := IdentityKey(f, pattern) == IdentityKey(f, cleaned);
      }
      CollapseIsIdempotent(raw, f.isSpace);
    }
  }

  /** `raw` is the pattern up to whitespace, or up to whitespace and case. */
  predicate Accepts(f: Folding, pattern: string, caseSensitive: bool, raw: string) {
    if caseSensitive then Collapse(raw, f.isSpace) == pattern
    else f.casefold(Collapse(raw, f.isSpace)) == f.casefold(Collapse(pattern, f.isSpace))
  }

  /**
   * What the flag means: a case-sensitive identity accepts exactly the spellings of the same words, any
   * other exactly those that fold to the same text, and so every spelling the first would.
   */
  lemma SpellingsAccepted(f: Folding, value: string, raw: string)
    requires f.isSpace(' ')
    ensures
      var pattern := Collapse(value, f.isSpace);
      && (Accepts(f, pattern, true, raw) <==> Split(raw, f.isSpace) == Split(value, f.isSpace))
      && (Accepts(f, pattern, false, raw) <==> IdentityKey(f, raw) == IdentityKey(f, value))
      && (Accepts(f, pattern, true, raw) ==> Accepts(f, pattern, false, raw))
  {
    CollapseIsIdempotent(value, f.isSpace);
    SplitIsClean(value, f.isSpace);
    SplitIsClean(raw, f.isSpace);
    SplitOfJoin(Split(value, f.isSpace), f.isSpace);
    SplitOfJoin(Split(raw, f.isSpace), f.isSpace);
  }

  /**
   * Lookup by index misses nothing: every spelling an identity accepts is among the candidates its
   * stored key finds, and every candidate agrees with it once normalised.
   */
  lemma LookupIsComplete(
      lib: IndexLibrary, key: Bytes, f: Folding, value: string, caseSensitive: bool, raw: string)
    requires f.isSpace(' ')
    ensures
      var pattern := Collapse(value, f.isSpace);
      var stored := IdentityIndex(lib, key, f, pattern);
      && (Accepts(f, pattern, caseSensitive, raw) ==> IdentityIndex(lib, key, f, raw) == stored)
      && (lib.Injective() ==>
            (IdentityIndex(lib, key, f, raw) == stored
             <==> lib.normalise(IdentityKey(f, raw)) == lib.normalise(IdentityKey(f, value))))
  {
    CollapseIsIdempotent(value, f.isSpace);
  }
}
