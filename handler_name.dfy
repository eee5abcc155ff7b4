/**
 * How the validator turns an include name into the name of the method that
 * handles it: `'include' . str_replace(' ', '', ucwords(str_replace('_', ' ', $name)))`.
 * Characters are taken as ASCII: `ucwords` upper-cases only 'a'..'z'.
 */
module HandlerName {

  /** The fixed prefix of every handler method name. */
  const Prefix: string := "include"

  /** The characters after which `ucwords` starts a new word (its default set " \t\r\n\f\v"). */
  predicate IsWordBreak(c: char)
  {
    c == ' ' || c == '\t' || c == '\r' || c == '\n' || c as int == 12 || c as int == 11
  }

  /** ASCII upper-casing; every other character is left as it is. */
  function UpperAscii(c: char): (u: char)
    ensures 'a' <= c <= 'z' ==> 'A' <= u <= 'Z' && u as int == c as int - 32
    ensures !('a' <= c <= 'z') ==> u == c
  {
    if 'a' <= c <= 'z' then (c as int - 32) as char else c
  }

  /** ASCII lower-casing, as PHP folds method names; every other character is left as it is. */
  function LowerAscii(c: char): (l: char)
    ensures 'A' <= c <= 'Z' ==> 'a' <= l <= 'z' && l as int == c as int + 32
    ensures !('A' <= c <= 'Z') ==> l == c
  {
    if 'A' <= c <= 'Z' then (c as int + 32) as char else c
  }

  /** A method name as PHP's method table keys it: lower-cased, character by character. */
  function LowerName(s: string): (r: string)
    ensures |r| == |s|
    ensures forall i :: 0 <= i < |s| ==> r[i] == LowerAscii(s[i])
  {
    if s == [] then [] else [LowerAscii(s[0])] + LowerName(s[1..])
  }

  /** `str_replace('_', ' ', s)`. */
  function UnderscoresToSpaces(s: string): (r: string)
    ensures |r| == |s|
    ensures forall i :: 0 <= i < |s| ==> r[i] == if s[i] == '_' then ' ' else s[i]
  {
    if s == [] then [] else [if s[0] == '_' then ' ' else s[0]] + UnderscoresToSpaces(s[1..])
  }

  /**
   * `ucwords`, scanning left to right: `atStart` says whether the previous
   * character was a word break (true at the start of the string).
   */
  function UcWordsFrom(s: string, atStart: bool): string
  {
    if s == [] then []
    else [if atStart then UpperAscii(s[0]) else s[0]] + UcWordsFrom(s[1..], IsWordBreak(s[0]))
  }

  function UcWords(s: string): string
  {
    UcWordsFrom(s, true)
  }

  /** `str_replace(' ', '', s)`. */
  function RemoveSpaces(s: string): string
  {
    if s == [] then []
    else (if s[0] == ' ' then [] else [s[0]]) + RemoveSpaces(s[1..])
  }

  /** The part of the handler name after the prefix. */
  function Suffix(includeName: string): string
  {
    RemoveSpaces(UcWords(UnderscoresToSpaces(includeName)))
  }

  /** The handler method name for an include (line 161 of the validator). */
  function MethodName(includeName: string): (r: string)
    ensures |r| >= |Prefix| && r[..|Prefix|] == Prefix
    ensures '_' !in r && ' ' !in r
  {
    RemovesSpacesAndUnderscores(includeName);
    Prefix + Suffix(includeName)
  }

  /** A word capitalised by `ucwords`: its first letter upper-cased. */
  function Capitalize(w: string): string
  {
    if w == [] then [] else [UpperAscii(w[0])] + w[1..]
  }

  /**
   * `ucwords` upper-cases exactly the characters at the start of the string
   * or right after a word break.
   */
  lemma {:induction false} UcWordsAt(s: string, atStart: bool, i: nat)
    requires i < |s|
    ensures |UcWordsFrom(s, atStart)| == |s|
    ensures UcWordsFrom(s, atStart)[i] ==
              if (if i == 0 then atStart else IsWordBreak(s[i - 1])) then UpperAscii(s[i]) else s[i]
  {
    if i > 0 {
      UcWordsAt(s[1..], IsWordBreak(s[0]), i - 1);
    } else if |s| > 1 {
      UcWordsAt(s[1..], IsWordBreak(s[0]), 0);
    }
  }

  /** The suffix holds no space and no underscore. */
  lemma {:induction false} RemovesSpacesAndUnderscores(s: string)
    ensures '_' !in Suffix(s) && ' ' !in Suffix(s)
  {
    var t := UcWords(UnderscoresToSpaces(s));
    UcWordsHasNoUnderscore(UnderscoresToSpaces(s), true);
    RemoveSpacesSpec(t);
  }

  lemma {:induction false} UcWordsHasNoUnderscore(s: string, atStart: bool)
    requires '_' !in s
    ensures '_' !in UcWordsFrom(s, atStart)
  {
    if s != [] {
      assert s[0] in s;
      assert forall c :: c in s[1..] ==> c in s;
      UcWordsHasNoUnderscore(s[1..], IsWordBreak(s[0]));
    }
  }

  /** The positions of `s` that hold no space, in increasing order. */
  function NonSpaceIndices(s: string): seq<nat>
  {
    if s == [] then []
    else
      var n := |s| - 1;
      NonSpaceIndices(s[..n]) + (if s[n] != ' ' then [n] else [])
  }

  /**
   * `str_replace(' ', '', s)` drops every space and keeps every other
   * character, in order: the result is the subsequence of `s` at the
   * increasing positions that hold no space.
   */
  lemma {:induction false} RemoveSpacesSpec(s: string)
    ensures ' ' !in RemoveSpaces(s)
    ensures forall c :: c != ' ' ==> (c in RemoveSpaces(s) <==> c in s)
    ensures forall c :: c != ' ' ==> multiset(RemoveSpaces(s))[c] == multiset(s)[c]
    ensures var r, idx := RemoveSpaces(s), NonSpaceIndices(s);
      && |idx| == |r|
      && (forall j :: 0 <= j < |idx| ==> idx[j] < |s| && r[j] == s[idx[j]])
      && (forall j, k :: 0 <= j < k < |idx| ==> idx[j] < idx[k])
      && (forall i :: 0 <= i < |s| ==> (i in idx <==> s[i] != ' '))
  {
    if s != [] {
      RemoveSpacesSpec(s[1..]);
      assert s == [s[0]] + s[1..];
    }
    RemoveSpacesSelects(s);
  }

  lemma {:induction false} RemoveSpacesSelects(s: string)
    ensures var r, idx := RemoveSpaces(s), NonSpaceIndices(s);
      && |idx| == |r|
      && (forall j :: 0 <= j < |idx| ==> idx[j] < |s| && r[j] == s[idx[j]])
      && (forall j, k :: 0 <= j < k < |idx| ==> idx[j] < idx[k])
      && (forall i :: 0 <= i < |s| ==> (i in idx <==> s[i] != ' '))
  {
    if s != [] {
      var n := |s| - 1;
      var init := s[..n];
      RemoveSpacesSelects(init);
      assert s == init + [s[n]];
      RemoveSpacesAppend(init, [s[n]]);
      assert RemoveSpaces([s[n]]) == if s[n] != ' ' then [s[n]] else [];
      var idx0 := NonSpaceIndices(init);
      assert forall i :: 0 <= i < n ==> init[i] == s[i];
      assert forall j :: 0 <= j < |idx0| ==> idx0[j] < n;
    }
  }

  lemma {:induction false} RemoveSpacesAppend(a: string, b: string)
    ensures RemoveSpaces(a + b) == RemoveSpaces(a) + RemoveSpaces(b)
  {
    if a != [] {
      assert (a + b)[1..] == a[1..] + b;
      RemoveSpacesAppend(a[1..], b);
    } else {
      assert a + b == b;
    }
  }

  /** Whether `ucwords` starts a word after scanning `a` from state `atStart`. */
  function StartAfter(a: string, atStart: bool): bool
  {
    if a == [] then atStart else IsWordBreak(a[|a| - 1])
  }

  lemma {:induction false} UcWordsAppend(a: string, b: string, atStart: bool)
    ensures UcWordsFrom(a + b, atStart) == UcWordsFrom(a, atStart) + UcWordsFrom(b, StartAfter(a, atStart))
  {
    if a == [] {
      assert a + b == b;
    } else {
      var st := IsWordBreak(a[0]);
      var head := [if atStart then UpperAscii(a[0]) else a[0]];
      assert (a + b)[0] == a[0];
      assert (a + b)[1..] == a[1..] + b;
      assert UcWordsFrom(a + b, atStart) == head + UcWordsFrom(a[1..] + b, st);
      UcWordsAppend(a[1..], b, st);
      assert StartAfter(a[1..], st) == StartAfter(a, atStart);
    }
  }

  /**
   * An underscore separates words: the suffix of `a_b` is the suffix of `a`
   * followed by the suffix of `b`, whose first letter is upper-cased.
   */
  lemma {:induction false} SuffixSplitsAtUnderscore(a: string, b: string)
    ensures Suffix(a + "_" + b) == Suffix(a) + Suffix(b)
  {
    var u, w := UnderscoresToSpaces(a), UnderscoresToSpaces(b);
    calc {
      Suffix(a + "_" + b);
      { UnderscoresAroundBreak(a, b); }
      RemoveSpaces(UcWords(u + " " + w));
      { UcWordsAroundSpace(u, w); }
      RemoveSpaces(UcWords(u) + " " + UcWords(w));
      { RemoveSpacesAroundSpace(UcWords(u), UcWords(w)); }
      Suffix(a) + Suffix(b);
    }
  }

  /** `str_replace('_', ' ', ...)` works character by character, so it distributes over concatenation. */
  lemma UnderscoresAroundBreak(a: string, b: string)
    ensures UnderscoresToSpaces(a + "_" + b) == UnderscoresToSpaces(a) + " " + UnderscoresToSpaces(b)
  {
  }

  /** A space ends a word: what follows it is capitalised as if it began the string. */
  lemma UcWordsAroundSpace(u: string, w: string)
    ensures UcWords(u + " " + w) == UcWords(u) + " " + UcWords(w)
  {
    UcWordsAppend(u + " ", w, true);
    UcWordsAppend(u, " ", true);
    assert UcWordsFrom(" ", StartAfter(u, true)) == " ";
    assert StartAfter(u + " ", true);
  }

  lemma RemoveSpacesAroundSpace(x: string, y: string)
    ensures RemoveSpaces(x + " " + y) == RemoveSpaces(x) + RemoveSpaces(y)
  {
    RemoveSpacesAppend(x + " ", y);
    RemoveSpacesAppend(x, " ");
  }

  /** A single word (no underscore, no word break) becomes that word capitalised. */
  lemma {:induction false} SuffixOfWord(w: string)
    requires IsWord(w)
    ensures Suffix(w) == Capitalize(w)
  {
    assert UnderscoresToSpaces(w) == w;
    if w != [] {
      var t := UcWords(w);
      UcWordsAt(w, true, 0);
      forall i | 0 <= i < |w|
        ensures t[i] == Capitalize(w)[i]
      {
        UcWordsAt(w, true, i);
      }
      assert t == Capitalize(w);
      NoSpaceUnchanged(t);
    }
  }

  lemma {:induction false} NoSpaceUnchanged(s: string)
    requires forall i :: 0 <= i < |s| ==> s[i] != ' '
    ensures RemoveSpaces(s) == s
  {
    if s != [] {
      NoSpaceUnchanged(s[1..]);
    }
  }

  /** A word of an include name: no underscore and no word break inside it. */
  ghost predicate IsWord(w: string)
  {
    forall i :: 0 <= i < |w| ==> w[i] != '_' && !IsWordBreak(w[i])
  }

  /** Words joined with underscores, as in `user_profile`. */
  function JoinWords(ws: seq<string>): string
  {
    if |ws| == 0 then ""
    else if |ws| == 1 then ws[0]
    else JoinWords(ws[..|ws| - 1]) + "_" + ws[|ws| - 1]
  }

  /** Words capitalised and run together, as in `UserProfile`. */
  function CamelWords(ws: seq<string>): string
  {
    if ws == [] then "" else CamelWords(ws[..|ws| - 1]) + Capitalize(ws[|ws| - 1])
  }

  /**
   * An include name made of underscore-separated words is handled by the
   * method `include` followed by those words, each capitalised, with the
   * underscores gone: `user_profile` is handled by `includeUserProfile`.
   */
  lemma {:induction false} MethodNameOfWords(ws: seq<string>)
    requires forall k :: 0 <= k < |ws| ==> IsWord(ws[k])
    ensures MethodName(JoinWords(ws)) == Prefix + CamelWords(ws)
  {
    SuffixOfWords(ws);
  }

  lemma {:induction false} SuffixOfWords(ws: seq<string>)
    requires forall k :: 0 <= k < |ws| ==> IsWord(ws[k])
    ensures Suffix(JoinWords(ws)) == CamelWords(ws)
  {
    if |ws| == 1 {
      SuffixOfWord(ws[0]);
      assert ws[..0] == [];
    } else if |ws| > 1 {
      var init := ws[..|ws| - 1];
      SuffixOfWords(init);
      SuffixSplitsAtUnderscore(JoinWords(init), ws[|ws| - 1]);
      SuffixOfWord(ws[|ws| - 1]);
    }
  }
}
