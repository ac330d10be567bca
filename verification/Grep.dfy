// The regular-expression matcher of grep.c, proved against a declarative reading of
// patterns: a pattern denotes a language, and match asks for an occurrence of a word of it.
module Grep {

  // C strings without their terminator. Reading at or past the end yields NUL.
  type CString = s: seq<char> | '\0' !in s witness []

  function At(s: CString, i: nat): char {
    if i < |s| then s[i] else '\0'
  }

  // ----- What a pattern means -----

  // One character, or any number of repetitions of one character; '.' is any character.
  datatype Item = One(c: char) | Star(c: char)

  // An item list, and whether the match must end at the end of the text.
  datatype Pattern = Pattern(items: seq<Item>, toEnd: bool)

  predicate Fits(c: char, x: char) {
    c == '.' || c == x
  }

  // Patterns are read from left to right, two characters at a time: "c*" first, then a
  // final "$", then a literal.
  function Read(re: CString): Pattern {
    if re == [] then Pattern([], false)
    else if |re| > 1 && re[1] == '*' then
      var p := Read(re[2..]);
      Pattern([Star(re[0])] + p.items, p.toEnd)
    else if re == "$" then Pattern([], true)
    else
      var p := Read(re[1..]);
      Pattern([One(re[0])] + p.items, p.toEnd)
  }

  // The word w belongs to the language of the items.
  ghost predicate InLanguage(items: seq<Item>, w: seq<char>)
    decreases |items|
  {
    if items == [] then w == []
    else match items[0]
      case One(c) => w != [] && Fits(c, w[0]) && InLanguage(items[1..], w[1..])
      case Star(c) =>
        exists k :: 0 <= k <= |w| && AllFit(c, w[..k]) && InLanguage(items[1..], w[k..])
  }

  ghost predicate AllFit(c: char, w: seq<char>) {
    forall i :: 0 <= i < |w| ==> Fits(c, w[i])
  }

  // The n characters of text from position i are an occurrence of the pattern.
  ghost predicate OccursAt(p: Pattern, text: seq<char>, i: nat, n: nat) {
    && i + n <= |text|
    && InLanguage(p.items, text[i..i + n])
    && (p.toEnd ==> i + n == |text|)
  }

  // The pattern has an occurrence that starts at position i.
  ghost predicate StartsAt(p: Pattern, text: seq<char>, i: nat) {
    exists n: nat :: OccursAt(p, text, i, n)
  }

  // The declared meaning of match: a leading '^' pins the occurrence to the start.
  ghost predicate Matches(re: CString, text: CString) {
    if At(re, 0) == '^' then StartsAt(Read(re[1..]), text, 0)
    else exists i: nat :: i <= |text| && StartsAt(Read(re), text, i)
  }

  // ----- How StartsAt unfolds along the pattern -----

  lemma {:induction false} OccursShift(p: Pattern, text: seq<char>, i: nat, n: nat)
    requires i <= |text|
    ensures OccursAt(p, text, i, n) <==> OccursAt(p, text[i..], 0, n)
  {
    if i + n <= |text| {
      assert text[i..i + n] == text[i..][0..0 + n];
    }
  }

  lemma {:induction false} StartsShift(p: Pattern, text: seq<char>, i: nat)
    requires i <= |text|
    ensures StartsAt(p, text, i) <==> StartsAt(p, text[i..], 0)
  {
    forall n: nat ensures OccursAt(p, text, i, n) <==> OccursAt(p, text[i..], 0, n) {
      OccursShift(p, text, i, n);
    }
  }

  lemma {:induction false} StartsEmpty(text: seq<char>, toEnd: bool)
    ensures StartsAt(Pattern([], toEnd), text, 0) <==> (toEnd ==> text == [])
  {
    assert text[0..0] == [];
    if toEnd ==> text == [] {
      assert OccursAt(Pattern([], toEnd), text, 0, 0);
    }
  }

  lemma {:induction false} StartsOne(c: char, p: Pattern, text: seq<char>)
    ensures StartsAt(Pattern([One(c)] + p.items, p.toEnd), text, 0)
       <==> text != [] && Fits(c, text[0]) && StartsAt(p, text[1..], 0)
  {
    var q := Pattern([One(c)] + p.items, p.toEnd);
    assert q.items[1..] == p.items;
    if text != [] {
      forall n: nat | n > 0
        ensures OccursAt(q, text, 0, n) <==> Fits(c, text[0]) && OccursAt(p, text[1..], 0, n - 1)
      {
        if n <= |text| {
          assert text[0..n][1..] == text[1..][0..n - 1];
        }
      }
      if Fits(c, text[0]) && StartsAt(p, text[1..], 0) {
        var m: nat :| OccursAt(p, text[1..], 0, m);
        assert OccursAt(q, text, 0, m + 1);
      }
    }
  }

  // The k characters that a star consumes, followed by the rest of the pattern.
  ghost predicate StarThen(c: char, p: Pattern, text: seq<char>, k: nat) {
    k <= |text| && AllFit(c, text[..k]) && StartsAt(p, text[k..], 0)
  }

  lemma {:induction false} StartsStar(c: char, p: Pattern, text: seq<char>)
    ensures StartsAt(Pattern([Star(c)] + p.items, p.toEnd), text, 0)
       <==> exists k: nat :: StarThen(c, p, text, k)
  {
    var q := Pattern([Star(c)] + p.items, p.toEnd);
    assert q.items[1..] == p.items;
    if StartsAt(q, text, 0) {
      var n: nat :| OccursAt(q, text, 0, n);
      var w := text[0..0 + n];
      var k :| 0 <= k <= |w| && AllFit(c, w[..k]) && InLanguage(p.items, w[k..]);
      assert w[..k] == text[..k] && w[k..] == text[k..][0..n - k];
      assert OccursAt(p, text[k..], 0, n - k);
      assert StarThen(c, p, text, k);
    }
    if exists k: nat :: StarThen(c, p, text, k) {
      var k: nat :| StarThen(c, p, text, k);
      var m: nat :| OccursAt(p, text[k..], 0, m);
      var w := text[0..0 + (k + m)];
      assert w[..k] == text[..k] && w[k..] == text[k..][0..m];
      assert OccursAt(q, text, 0, k + m);
    }
  }

  // ----- The matcher -----

  // match: search for re anywhere in text.
  method Match(re: CString, text: CString) returns (found: bool)
    ensures found <==> Matches(re, text)
  {
    if At(re, 0) == '^' {
      found := MatchHere(re[1..], text);
      return;
    }
    var i := 0;
    while true // the empty rest of the text is tried, too
      invariant i <= |text|
      invariant forall k: nat :: k < i ==> !StartsAt(Read(re), text, k)
      decreases |text| - i
    {
      StartsShift(Read(re), text, i);
      found := MatchHere(re, text[i..]);
      if found || At(text, i) == '\0' {
        return;
      }
      i := i + 1;
    }
  }

  // Whether an occurrence of re starts the text.
  method MatchHere(re: CString, text: CString) returns (found: bool)
    ensures found <==> StartsAt(Read(re), text, 0)
    decreases |re|, 1, |text|
  {
    if At(re, 0) == '\0' {
      StartsEmpty(text, false);
      return true;
    }
    if At(re, 1) == '*' {
      StartsStar(re[0], Read(re[2..]), text);
      found := MatchStar(re[0], re[2..], text);
      assert Read(re) == Pattern([Star(re[0])] + Read(re[2..]).items, Read(re[2..]).toEnd);
      return;
    }
    if re[0] == '$' && At(re, 1) == '\0' {
      StartsEmpty(text, true);
      return At(text, 0) == '\0';
    }
    StartsOne(re[0], Read(re[1..]), text);
    if At(text, 0) != '\0' && (re[0] == '.' || re[0] == At(text, 0)) {
      found := MatchHere(re[1..], text[1..]);
      return;
    }
    return false;
  }

  // Whether some run of characters that c fits, and then re, start the text.
  method MatchStar(c: char, re: CString, text: CString) returns (found: bool)
    ensures found <==> exists k: nat :: StarThen(c, Read(re), text, k)
    decreases |re|, 2, |text|
  {
    var i := 0;
    while true // first with no repetition, then with one more each time
      invariant i <= |text| && AllFit(c, text[..i])
      invariant forall k: nat :: k < i ==> !StarThen(c, Read(re), text, k)
      decreases |text| - i
    {
      found := MatchHere(re, text[i..]);
      if found {
        assert StarThen(c, Read(re), text, i);
        return;
      }
      if !(At(text, i) != '\0' && (At(text, i) == c || c == '.')) {
        forall k: nat | StarThen(c, Read(re), text, k) ensures false {
          if k > i && Fits(c, text[..k][i]) {
            assert false;
          }
        }
        return false;
      }
      assert text[..i + 1] == text[..i] + [text[i]];
      i := i + 1;
    }
  }

  // What a typed pattern means at the start of a text, read off its characters.
  lemma {:induction false} StartsIs(re: CString, text: CString)
    ensures StartsAt(Read(re), text, 0) <==>
              if re == [] then true
              else if |re| > 1 && re[1] == '*' then
                exists k: nat :: k <= |text| && (forall j :: 0 <= j < k ==> re[0] == '.' || text[j] == re[0])
                  && StartsAt(Read(re[2..]), text[k..], 0)
              else if re == "$" then text == []
              else text != [] && (re[0] == '.' || re[0] == text[0]) && StartsAt(Read(re[1..]), text[1..], 0)
  {
    if re == [] {
      StartsEmpty(text, false);
    } else if |re| > 1 && re[1] == '*' {
      var p := Read(re[2..]);
      StartsStar(re[0], p, text);
      forall k: nat
        ensures StarThen(re[0], p, text, k) <==>
                  k <= |text| && (forall j :: 0 <= j < k ==> re[0] == '.' || text[j] == re[0]) && StartsAt(p, text[k..], 0)
      {
        if k <= |text| {
          RunFits(re[0], text, k);
        }
      }
    } else if re == "$" {
      StartsEmpty(text, true);
    } else {
      StartsOne(re[0], Read(re[1..]), text);
    }
  }

  lemma {:induction false} RunFits(c: char, text: seq<char>, k: nat)
    requires k <= |text|
    ensures AllFit(c, text[..k]) <==> forall j :: 0 <= j < k ==> c == '.' || text[j] == c
  {
    var w := text[..k];
    forall j | 0 <= j < k ensures w[j] == text[j] {}
    if AllFit(c, w) {
      forall j | 0 <= j < k ensures c == '.' || text[j] == c {
        assert Fits(c, w[j]);
      }
    }
  }

  // A pattern occurs somewhere in the text; with '^' before it, at its start.
  lemma {:induction false} MatchesIs(re: CString, text: CString)
    ensures re != [] && re[0] == '^' ==> (Matches(re, text) <==> StartsAt(Read(re[1..]), text, 0))
    ensures re == [] || re[0] != '^' ==>
              (Matches(re, text) <==> exists i: nat :: i <= |text| && StartsAt(Read(re), text[i..], 0))
  {
    forall i: nat | i <= |text| ensures StartsAt(Read(re), text, i) <==> StartsAt(Read(re), text[i..], 0) {
      StartsShift(Read(re), text, i);
    }
  }

  // ----- Which patterns there are -----

  function PrintItem(item: Item): seq<char> {
    match item
    case One(c) => [c]
    case Star(c) => [c, '*']
  }

  // A pattern as it is typed.
  function Print(p: Pattern): seq<char>
    decreases |p.items|
  {
    if p.items == [] then if p.toEnd then "$" else []
    else PrintItem(p.items[0]) + Print(Pattern(p.items[1..], p.toEnd))
  }

  // What cannot be typed: a literal before a '*' that is to be an ordinary character, and a
  // final '$' that is to be one. Everywhere else operators stand for themselves.
  ghost predicate Typeable(p: Pattern) {
    && (forall i :: 0 <= i < |p.items| ==> p.items[i].c != '\0')
    && (forall i :: 0 < i < |p.items| && p.items[i - 1].One? ==> p.items[i].c != '*')
    && (!p.toEnd && p.items != [] && p.items[|p.items| - 1].One? ==> p.items[|p.items| - 1].c != '$')
  }

  // Reading loses nothing of the pattern.
  lemma {:induction false} PrintOfRead(re: CString)
    ensures Print(Read(re)) == re
    decreases |re|
  {
    if re != [] {
      if |re| > 1 && re[1] == '*' {
        PrintOfRead(re[2..]);
        ReadTail(re, 2, Star(re[0]));
        assert re == [re[0], '*'] + re[2..];
      } else if re != "$" {
        PrintOfRead(re[1..]);
        ReadTail(re, 1, One(re[0]));
        assert re == [re[0]] + re[1..];
      }
    }
  }

  lemma {:induction false} ReadTail(re: CString, k: nat, item: Item)
    requires k <= |re|
    requires Read(re) == Pattern([item] + Read(re[k..]).items, Read(re[k..]).toEnd)
    ensures Print(Read(re)) == PrintItem(item) + Print(Read(re[k..]))
  {
    hide Read;
    var rest := Read(re[k..]);
    assert Read(re).items[1..] == rest.items;
    assert Pattern(rest.items, rest.toEnd) == rest;
  }

  // What is read can be typed.
  lemma {:induction false} ReadIsTypeable(re: CString)
    ensures Typeable(Read(re))
    decreases |re|
  {
    if re != [] {
      if |re| > 1 && re[1] == '*' {
        ReadIsTypeable(re[2..]);
      } else if re != "$" {
        ReadIsTypeable(re[1..]);
        FirstChar(re[1..]);
        assert |re| == 1 ==> re == [re[0]] && re[1..] == [];
      }
    }
  }

  // The first item begins with the first character.
  lemma {:induction false} FirstChar(re: CString)
    ensures Read(re).items != [] ==> re != [] && Read(re).items[0].c == re[0]
    ensures Read(re).items == [] ==> re == [] || re == "$"
  {
  }

  lemma {:induction false} PrintHasNoNul(p: Pattern)
    requires forall i :: 0 <= i < |p.items| ==> p.items[i].c != '\0'
    ensures '\0' !in Print(p)
    decreases |p.items|
  {
    if p.items != [] {
      PrintHasNoNul(Pattern(p.items[1..], p.toEnd));
    }
  }

  // A pattern reads back from what is typed for it exactly if it can be typed.
  lemma {:induction false} ReadOfPrint(p: Pattern)
    requires forall i :: 0 <= i < |p.items| ==> p.items[i].c != '\0'
    ensures '\0' !in Print(p)
    ensures Read(Print(p)) == p <==> Typeable(p)
  {
    PrintHasNoNul(p);
    ReadIsTypeable(Print(p));
    if Typeable(p) {
      TypedReadsBack(p);
    }
  }

  lemma {:induction false} TypedReadsBack(p: Pattern)
    requires Typeable(p) && '\0' !in Print(p)
    ensures Read(Print(p)) == p
    decreases |p.items|
  {
    if p.items != [] {
      var rest := Pattern(p.items[1..], p.toEnd);
      PrintHasNoNul(rest);
      TypedReadsBack(rest);
      var re := Print(p);
      assert p == Pattern([p.items[0]] + rest.items, rest.toEnd);
      match p.items[0] {
        case Star(c) =>
          assert re[2..] == Print(rest);
        case One(c) =>
          assert re[1..] == Print(rest);
          assert rest.items != [] ==> Print(rest)[0] == rest.items[0].c == p.items[1].c;
      }
    }
  }
}
