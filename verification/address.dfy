/** `extract_state` of StoreVisualizer.py: the two-letter state code of a
    postal address, found as the first whitespace-separated token of two
    upper-case characters. */
module Address {
  import opened Common
  import opened Seqs

  /** The characters Python's `str.split()` without arguments splits on. */
  predicate IsSpace(c: char)
  {
    || c == ' ' || c == '\t' || c == '\n' || c == '\r'
    || c == '\U{000B}' || c == '\U{000C}'
    || ('\U{001C}' <= c <= '\U{001F}')
    || c == '\U{0085}' || c == '\U{00A0}' || c == '\U{1680}'
    || ('\U{2000}' <= c <= '\U{200A}')
    || c == '\U{2028}' || c == '\U{2029}' || c == '\U{202F}' || c == '\U{205F}' || c == '\U{3000}'
  }

  predicate NoSpace(s: string)
  {
    forall k :: 0 <= k < |s| ==> !IsSpace(s[k])
  }

  predicate Blank(s: string)
  {
    forall k :: 0 <= k < |s| ==> IsSpace(s[k])
  }

  /** The longest prefix of `s` without whitespace. */
  function Word(s: string): (w: string)
    ensures |w| <= |s| && w == s[..|w|]
    ensures NoSpace(w)
    ensures |w| < |s| ==> IsSpace(s[|w|])
  {
    if |s| == 0 || IsSpace(s[0]) then [] else [s[0]] + Word(s[1..])
  }

  /** `s` without its leading whitespace. */
  function DropSpaces(s: string): (t: string)
    ensures |t| <= |s| && t == s[|s| - |t|..]
    ensures Blank(s[..|s| - |t|])
    ensures |t| > 0 ==> !IsSpace(t[0])
  {
    if |s| > 0 && IsSpace(s[0]) then DropSpaces(s[1..]) else s
  }

  /** Every token is non-empty and free of whitespace. */
  predicate AreTokens(tokens: seq<string>)
  {
    forall k :: 0 <= k < |tokens| ==> |tokens[k]| > 0 && NoSpace(tokens[k])
  }

  /** `str.split()`: the maximal runs of non-whitespace characters, in
      order; no token is empty. */
  function Split(s: string): (r: seq<string>)
    ensures AreTokens(r)
    decreases |s|
  {
    var t := DropSpaces(s);
    if |t| == 0 then []
    else
      var w := Word(t);
      var rest := Split(t[|w|..]);
      ConsTokens(w, rest);
      [w] + rest
  }

  lemma ConsTokens(w: string, rest: seq<string>)
    requires |w| > 0 && NoSpace(w) && AreTokens(rest)
    ensures AreTokens([w] + rest)
  {
    forall k | 1 <= k < |rest| + 1
      ensures |([w] + rest)[k]| > 0 && NoSpace(([w] + rest)[k])
    {
      assert ([w] + rest)[k] == rest[k - 1];
    }
  }

  /** `" ".join(tokens)`. */
  function Join(tokens: seq<string>): string
  {
    if |tokens| == 0 then ""
    else if |tokens| == 1 then tokens[0]
    else tokens[0] + " " + Join(tokens[1..])
  }

  /** Splitting tokens joined by single spaces gives the tokens back, when
      each is non-empty and free of whitespace. */
  lemma {:induction false} SplitJoin(tokens: seq<string>)
    requires AreTokens(tokens)
    ensures Split(Join(tokens)) == tokens
  {
    if |tokens| == 1 {
      SplitWord(tokens[0]);
    } else if |tokens| > 1 {
      TailTokens(tokens);
      SplitJoin(tokens[1..]);
      SplitJoinCons(tokens);
    }
  }

  lemma TailTokens(tokens: seq<string>)
    requires |tokens| > 0 && AreTokens(tokens)
    ensures AreTokens(tokens[1..])
  {
    var rest := tokens[1..];
    forall k | 0 <= k < |rest|
      ensures |rest[k]| > 0 && NoSpace(rest[k])
    {
      assert rest[k] == tokens[k + 1];
    }
  }

  /** The inductive step of `SplitJoin`. */
  lemma SplitJoinCons(tokens: seq<string>)
    requires |tokens| > 1 && AreTokens(tokens) && AreTokens(tokens[1..])
    requires Split(Join(tokens[1..])) == tokens[1..]
    ensures Split(Join(tokens)) == tokens
  {
    var rest := tokens[1..];
    HeadToken(tokens);
    JoinCons(tokens);
    JoinStartsWithWord(rest);
    SplitAfterWord(tokens[0], Join(rest));
    HeadAndTail(tokens);
  }

  lemma HeadToken(tokens: seq<string>)
    requires |tokens| > 0 && AreTokens(tokens)
    ensures |tokens[0]| > 0 && NoSpace(tokens[0])
  {
  }

  lemma JoinCons(tokens: seq<string>)
    requires |tokens| > 1
    ensures Join(tokens) == tokens[0] + " " + Join(tokens[1..])
  {
  }

  /** The split is empty exactly on a blank string. */
  lemma SplitBlank(s: string)
    ensures Split(s) == [] <==> Blank(s)
  {
    var t := DropSpaces(s);
    if |t| > 0 {
      assert t[0] == s[|s| - |t|];
    } else {
      assert s[..|s|] == s;
    }
  }

  /** `str.split()` cuts at every whitespace character: what lies on either
      side splits independently, whatever whitespace surrounds it. Together
      with `SplitBlank` and `SplitWord` this fixes `Split` on every string. */
  lemma {:induction false} SplitAtSpace(a: string, c: char, b: string)
    requires IsSpace(c)
    ensures Split(a + [c] + b) == Split(a) + Split(b)
    decreases |a|
  {
    var tail := [c] + b;
    var s := a + tail;
    AppendAssoc(a, [c], b);
    SplitDropSpace(tail);
    assert tail[1..] == b;
    if |a| == 0 {
      assert s == tail;
      SplitBlank(a);
    } else if IsSpace(a[0]) {
      HeadOfAppend(a, tail);
      SplitDropSpace(s);
      SplitDropSpace(a);
      DropOfAppend(a, tail, 1);
      AppendAssoc(a[1..], [c], b);
      SplitAtSpace(a[1..], c, b);
    } else {
      var w := Word(a);
      HeadOfAppend(a, tail);
      SplitStep(a);
      SplitStep(s);
      if |w| < |a| {
        WordOfLonger(a, tail);
        DropOfAppend(a, tail, |w|);
        AppendAssoc(a[|w|..], [c], b);
        SplitAtSpace(a[|w|..], c, b);
        AppendAssoc([w], Split(a[|w|..]), Split(b));
      } else {
        assert w == a;
        WordBeforeSpace(a, tail);
        DropPrefix(a, tail);
        SplitWord(a);
      }
    }
  }

  /** Leading whitespace is skipped one character at a time. */
  lemma SplitDropSpace(s: string)
    requires |s| > 0 && IsSpace(s[0])
    ensures Split(s) == Split(s[1..])
  {
    assert DropSpaces(s) == DropSpaces(s[1..]);
  }

  /** A word that ends before its string does is not lengthened by
      anything appended to the string. */
  lemma WordOfLonger(a: string, x: string)
    requires |Word(a)| < |a|
    ensures Word(a + x) == Word(a)
  {
    var w := Word(a);
    var rest := a[|w|..];
    TakeDrop(a, |w|);
    AppendAssoc(w, rest, x);
    HeadOfAppend(rest, x);
    WordBeforeSpace(w, rest + x);
  }

  /** A single word splits into itself. */
  lemma SplitWord(w: string)
    requires |w| > 0 && NoSpace(w)
    ensures Split(w) == [w]
  {
    WordBeforeSpace(w, "");
    assert w + "" == w;
    assert DropSpaces(w) == w;
    assert w[|w|..] == "";
  }

  /** A word, a space and a non-blank rest split into the word followed by
      the split of the rest. */
  lemma SplitAfterWord(w: string, rest: string)
    requires |w| > 0 && NoSpace(w)
    requires |rest| > 0 && !IsSpace(rest[0])
    ensures Split(w + " " + rest) == [w] + Split(rest)
  {
    var tail := " " + rest;
    AppendAssoc(w, " ", rest);
    HeadOfAppend(w, tail);
    SplitStep(w + tail);
    WordBeforeSpace(w, tail);
    DropPrefix(w, tail);
    SplitAfterSpace(rest);
  }

  /** On a string that starts with a non-space, the split is its first word
      followed by the split of what comes after it. */
  lemma SplitStep(s: string)
    requires |s| > 0 && !IsSpace(s[0])
    ensures Split(s) == [Word(s)] + Split(s[|Word(s)|..])
  {
    DropSpacesNone(s);
  }

  lemma DropSpacesNone(s: string)
    requires |s| == 0 || !IsSpace(s[0])
    ensures DropSpaces(s) == s
  {
  }

  /** One space before a non-blank string does not change its split. */
  lemma SplitAfterSpace(rest: string)
    requires |rest| > 0 && !IsSpace(rest[0])
    ensures Split(" " + rest) == Split(rest)
  {
    var t := " " + rest;
    assert t[1..] == rest;
    DropSpacesNone(rest);
    assert DropSpaces(t) == rest;
    SplitAfterSpaces(t);
  }

  /** Leading whitespace does not change the split. */
  lemma SplitAfterSpaces(s: string)
    ensures Split(s) == Split(DropSpaces(s))
  {
    var t := DropSpaces(s);
    assert DropSpaces(t) == t;
  }

  /** A word followed by whitespace or nothing is read back whole. */
  lemma {:induction false} WordBeforeSpace(w: string, rest: string)
    requires NoSpace(w)
    requires |rest| == 0 || IsSpace(rest[0])
    ensures Word(w + rest) == w
  {
    if |w| > 0 {
      assert (w + rest)[1..] == w[1..] + rest;
      WordBeforeSpace(w[1..], rest);
    } else {
      assert w + rest == rest;
    }
  }

  lemma JoinStartsWithWord(tokens: seq<string>)
    requires |tokens| > 0
    requires AreTokens(tokens)
    ensures |Join(tokens)| > 0 && !IsSpace(Join(tokens)[0])
  {
    if |tokens| > 1 {
      assert Join(tokens)[0] == tokens[0][0];
    }
  }

  predicate IsAsciiUpper(c: char)
  {
    'A' <= c <= 'Z'
  }

  predicate IsAsciiLower(c: char)
  {
    'a' <= c <= 'z'
  }

  /** `str.isupper()` over ASCII letters: at least one upper-case letter and
      no lower-case one; other characters are uncased. */
  predicate IsUpper(s: string)
  {
    (exists k :: 0 <= k < |s| && IsAsciiUpper(s[k])) && forall k :: 0 <= k < |s| ==> !IsAsciiLower(s[k])
  }

  /** The test of the scan: two characters and upper case. */
  predicate Qualifies(token: string)
  {
    |token| == 2 && IsUpper(token)
  }

  /** The first qualifying token of `tokens`, by recursion. */
  function FirstQualifying(tokens: seq<string>): (r: Option<nat>)
    ensures r.Some? ==> r.value < |tokens| && Qualifies(tokens[r.value])
    ensures r.Some? ==> forall j :: 0 <= j < r.value ==> !Qualifies(tokens[j])
    ensures r.None? <==> forall j :: 0 <= j < |tokens| ==> !Qualifies(tokens[j])
  {
    if |tokens| == 0 then None
    else if Qualifies(tokens[0]) then Some(0)
    else
      match FirstQualifying(tokens[1..])
      case None => None
      case Some(i) => Some(i + 1)
  }

  /** The first token of `tokens` that has two characters and is upper
      case; `StateUnbound` when no token qualifies. */
  function StateIn(tokens: seq<string>): (r: Result<string>)
    ensures r.Success? ==> exists i :: 0 <= i < |tokens| && tokens[i] == r.value
                                       && forall j :: 0 <= j < i ==> !Qualifies(tokens[j])
    ensures r.Success? ==> |r.value| == 2 && IsUpper(r.value)
    ensures r.Failure? <==> forall j :: 0 <= j < |tokens| ==> !Qualifies(tokens[j])
    ensures r.Failure? ==> r.error == StateUnbound
  {
    match FirstQualifying(tokens)
    case None => Failure(StateUnbound)
    case Some(i) => Success(tokens[i])
  }

  /** `extract_state`: splits the address and scans its tokens in order,
      stopping at the first that qualifies. When none does, `state` is
      never bound and the return raises. */
  method ExtractState(address: string) returns (r: Result<string>)
    ensures r == StateIn(Split(address))
  {
    r := Scan(Split(address));
  }

  /** The loop of `extract_state` over the tokens. */
  method Scan(parts: seq<string>) returns (r: Result<string>)
    ensures r == StateIn(parts)
  {
    var i := 0;
    while i < |parts|
      invariant 0 <= i <= |parts|
      invariant forall j :: 0 <= j < i ==> !Qualifies(parts[j])
    {
      if |parts[i]| == 2 && IsUpper(parts[i]) {
        FirstIs(parts, i);
        return Success(parts[i]);
      }
      i := i + 1;
    }
    FirstIsNone(parts);
    return Failure(StateUnbound);
  }

  lemma FirstIs(tokens: seq<string>, i: nat)
    requires i < |tokens| && Qualifies(tokens[i])
    requires forall j :: 0 <= j < i ==> !Qualifies(tokens[j])
    ensures FirstQualifying(tokens) == Some(i)
    ensures StateIn(tokens) == Success(tokens[i])
  {
    var r := FirstQualifying(tokens);
    assert r.Some?;
    if r.value < i {
    } else if r.value > i {
    }
  }

  lemma FirstIsNone(tokens: seq<string>)
    requires forall j :: 0 <= j < |tokens| ==> !Qualifies(tokens[j])
    ensures FirstQualifying(tokens) == None
    ensures StateIn(tokens) == Failure(StateUnbound)
  {
  }

  /** On tokens joined by single spaces, the state code is the first
      qualifying token itself. */
  lemma StateOfJoin(tokens: seq<string>, i: nat)
    requires AreTokens(tokens)
    requires i < |tokens| && Qualifies(tokens[i])
    requires forall j :: 0 <= j < i ==> !Qualifies(tokens[j])
    ensures StateIn(Split(Join(tokens))) == Success(tokens[i])
  {
    SplitJoin(tokens);
    FirstIs(tokens, i);
  }

  /** A token carrying punctuation, such as `NY,`, is too long to qualify;
      the scan passes over it to a bare code further on. */
  lemma PunctuatedCodeSkipped(city: string, zip: string)
    requires |city| > 0 && NoSpace(city) && !Qualifies(city)
    requires |zip| > 0 && NoSpace(zip)
    ensures !Qualifies("NY,")
    ensures StateIn(Split(Join([city, "NY,", "CA", zip]))) == Success("CA")
  {
    var tokens := [city, "NY,", "CA", zip];
    assert NoSpace("NY,") && NoSpace("CA");
    assert Qualifies("CA") by {
      assert IsAsciiUpper("CA"[0]);
    }
    StateOfJoin(tokens, 2);
  }
}
