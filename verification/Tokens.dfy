/** Splitting a command line into words in place, and joining words back into one line. */
module Tokens {
  const NUL := 0 as char

  /** The white space of the C locale. */
  predicate IsSpace(c: char) {
    c == ' ' || 9 <= c as int <= 13
  }

  predicate NoNul(s: string) {
    forall i :: 0 <= i < |s| ==> s[i] != NUL
  }

  /** A C string: its characters, none of them the terminator. */
  type cstring = s: string | NoNul(s) witness ""

  /** The buffer holds the text, followed by its terminator. */
  predicate Holds(buf: seq<char>, text: cstring) {
    PointsTo(buf, 0, text)
  }

  /** The pointer p into the buffer reads as the string w. */
  predicate PointsTo(buf: seq<char>, p: nat, w: cstring) {
    p + |w| < |buf| && buf[p..p + |w|] == w && buf[p + |w|] == NUL
  }

  // ---------- what the words of a text are ----------

  function TokenEnd(text: string, i: nat): (e: nat)
    requires i <= |text|
    ensures i <= e <= |text|
    ensures forall k :: i <= k < e ==> !IsSpace(text[k])
    ensures e < |text| ==> IsSpace(text[e])
    decreases |text| - i
  {
    if i == |text| || IsSpace(text[i]) then i else TokenEnd(text, i + 1)
  }

  function WordsFrom(text: string, i: nat): seq<string>
    requires i <= |text|
    decreases |text| - i
  {
    if i == |text| then []
    else if IsSpace(text[i]) then WordsFrom(text, i + 1)
    else [text[i..TokenEnd(text, i)]] + WordsFrom(text, TokenEnd(text, i))
  }

  function Words(text: string): seq<string> {
    WordsFrom(text, 0)
  }

  /** A string that can stand as one word of a command line. */
  predicate IsWord(w: string) {
    w != "" && forall i :: 0 <= i < |w| ==> !IsSpace(w[i])
  }

  lemma {:induction false} WordsFromAreWords(text: string, i: nat)
    requires i <= |text|
    ensures forall w :: w in WordsFrom(text, i) ==> IsWord(w)
    decreases |text| - i
  {
    if i < |text| {
      WordsFromAreWords(text, if IsSpace(text[i]) then i + 1 else TokenEnd(text, i));
    }
  }

  /** Only the text from the starting position on matters. */
  lemma {:induction false} TokenEndShift(a: string, b: string, i: nat)
    requires i <= |b|
    ensures TokenEnd(a + b, |a| + i) == |a| + TokenEnd(b, i)
    decreases |b| - i
  {
    if i < |b| && !IsSpace(b[i]) {
      assert (a + b)[|a| + i] == b[i];
      TokenEndShift(a, b, i + 1);
    }
  }

  lemma TokenEndMoves(text: string, i: nat)
    requires i < |text| && !IsSpace(text[i])
    ensures TokenEnd(text, i) > i
  {
  }

  lemma {:induction false} WordsShift(a: string, b: string, i: nat)
    requires i <= |b|
    ensures WordsFrom(a + b, |a| + i) == WordsFrom(b, i)
    decreases |b| - i
  {
    hide TokenEnd;
    if i < |b| {
      var t := a + b;
      assert t[|a| + i] == b[i];
      if IsSpace(b[i]) {
        WordsShift(a, b, i + 1);
      } else {
        TokenEndMoves(b, i);
        var e := TokenEnd(b, i);
        TokenEndShift(a, b, i);
        assert t[|a| + i..|a| + e] == b[i..e];
        WordsShift(a, b, e);
      }
    }
  }

  /** A token that ends at white space ends there whatever follows. */
  lemma {:induction false} TokenEndCut(a: string, c: char, b: string, i: nat)
    requires i <= |a| && IsSpace(c)
    ensures TokenEnd(a + [c] + b, i) == TokenEnd(a, i)
    decreases |a| - i
  {
    var t := a + [c] + b;
    if i < |a| {
      assert t[i] == a[i];
      if !IsSpace(a[i]) {
        TokenEndCut(a, c, b, i + 1);
      }
    } else {
      assert t[i] == c;
    }
  }

  lemma {:induction false} WordsSplitFrom(a: string, c: char, b: string, i: nat)
    requires i <= |a| && IsSpace(c)
    ensures WordsFrom(a + [c] + b, i) == WordsFrom(a, i) + Words(b)
    decreases |a| - i
  {
    var t := a + [c] + b;
    if i == |a| {
      assert t[i] == c;
      WordsShift(a + [c], b, 0);
    } else if IsSpace(a[i]) {
      assert t[i] == a[i];
      WordsSplitFrom(a, c, b, i + 1);
    } else {
      assert t[i] == a[i];
      TokenEndCut(a, c, b, i);
      var e := TokenEnd(a, i);
      assert t[i..e] == a[i..e];
      WordsSplitFrom(a, c, b, e);
      assert [a[i..e]] + (WordsFrom(a, e) + Words(b)) == [a[i..e]] + WordsFrom(a, e) + Words(b);
    }
  }

  /** The three equations that determine the words of every text: the empty text has none, a word is
      its own only word, and white space separates. */
  lemma WordsEquations(a: string, c: char, b: string, w: string)
    requires IsSpace(c) && IsWord(w)
    ensures Words("") == []
    ensures Words(w) == [w]
    ensures Words(a + [c] + b) == Words(a) + Words(b)
  {
    WordsSplitFrom(a, c, b, 0);
    assert |w| > 0 && !IsSpace(w[0]) && TokenEnd(w, 0) == |w|;
    assert w[0..|w|] == w && WordsFrom(w, |w|) == [];
  }

  // ---------- joining ----------

  function Join(args: seq<string>): string {
    if args == [] then "" else if |args| == 1 then args[0] else args[0] + [' '] + Join(args[1..])
  }

  lemma {:induction false} WordsOfJoin(args: seq<string>)
    requires forall w :: w in args ==> IsWord(w)
    ensures Words(Join(args)) == args
  {
    if args != [] {
      assert args[0] in args;
      WordsEquations(args[0], ' ', Join(args[1..]), args[0]);
      WordsOfJoin(args[1..]);
      assert args == [args[0]] + args[1..];
    }
  }

  /** Splitting the joined arguments returns them exactly when every one of them is a word. */
  lemma SplitJoinIff(args: seq<string>)
    ensures Words(Join(args)) == args <==> forall w :: w in args ==> IsWord(w)
  {
    WordsFromAreWords(Join(args), 0);
    if forall w :: w in args ==> IsWord(w) {
      WordsOfJoin(args);
    }
  }

  // ---------- split_command ----------

  function Blanked(c: char): char {
    if IsSpace(c) then NUL else c
  }

  /** Word w of the text starts at p. */
  predicate TokenAt(text: string, p: nat, w: string) {
    p + |w| <= |text| && text[p..p + |w|] == w && (p + |w| < |text| ==> IsSpace(text[p + |w|])) && IsWord(w)
  }

  /** The buffer while splitting: white space before position i is blanked if the tokens are wanted. */
  predicate BlankedTo(buf: seq<char>, text: string, i: nat, blanking: bool) {
    && i <= |text| < |buf|
    && buf[|text|] == NUL
    && (forall k :: 0 <= k < i ==> buf[k] == if blanking then Blanked(text[k]) else text[k])
    && (forall k :: i <= k < |text| ==> buf[k] == text[k])
  }

  /** The words found so far, and those still ahead. */
  predicate Found(text: string, words: seq<string>, i: nat) {
    i <= |text| && Words(text) == words + WordsFrom(text, i)
  }

  lemma FoundMore(text: string, words: seq<string>, i: nat, e: nat)
    requires Found(text, words, i) && i < |text| && !IsSpace(text[i]) && e == TokenEnd(text, i)
    ensures Found(text, words + [text[i..e]], e)
    ensures TokenAt(text, i, text[i..e])
  {
    hide TokenEnd, IsSpace;
    TokenEndMoves(text, i);
    var w, rest := text[i..e], WordsFrom(text, e);
    assert words + ([w] + rest) == (words + [w]) + rest;
    forall k | 0 <= k < |w| ensures !IsSpace(w[k]) {
      assert w[k] == text[i + k];
    }
  }

  lemma FoundSkip(text: string, words: seq<string>, i: nat)
    requires Found(text, words, i) && i < |text| && IsSpace(text[i])
    ensures Found(text, words, i + 1)
  {
  }

  lemma FoundAll(text: string, words: seq<string>)
    ensures Found(text, [], 0)
    ensures Found(text, words, |text|) ==> words == Words(text)
  {
  }

  lemma FoundBound(text: string, words: seq<string>, i: nat)
    requires Found(text, words, i)
    ensures |words| <= |Words(text)|
  {
  }

  lemma TokenReads(buf: seq<char>, text: cstring, p: nat, w: string)
    requires BlankedTo(buf, text, |text|, true) && TokenAt(text, p, w)
    ensures NoNul(w) && PointsTo(buf, p, w)
  {
    forall k | 0 <= k < |w|
      ensures w[k] == text[p + k] && w[k] != NUL && buf[p + k] == w[k]
    {
      assert text[p..p + |w|][k] == text[p + k];
    }
    assert buf[p..p + |w|] == w;
  }

  /** Both passes of split_command: with no token list it only counts, with one it also blanks the
      white space and leaves a pointer to every word. */
  method SplitCommand(command: array<char>, tokens: array?<nat>, ghost text: cstring) returns (count: nat)
    requires Holds(command[..], text)
    requires tokens != null ==> |Words(text)| <= tokens.Length
    modifies if tokens == null then {} else {command as object, tokens}
    ensures count == |Words(text)|
    ensures tokens != null ==> forall j :: 0 <= j < count ==>
              NoNul(Words(text)[j]) && PointsTo(command[..], tokens[j], Words(text)[j])
    ensures tokens != null ==> BlankedTo(command[..], text, |text|, true)
    ensures forall k :: |text| < k < command.Length ==> command[k] == old(command[k])
  {
    hide Words, WordsFrom, Found, TokenAt, IsWord, TokenEnd;
    FoundAll(text, []);
    count := 0;
    var p := 0;
    ghost var words: seq<string> := [];
    assert BlankedTo(command[..], text, 0, tokens != null) by {
      forall k | 0 <= k < |text| ensures command[k] == text[k] {
        assert command[..][0..|text|][k] == command[k];
      }
    }
    while true
      invariant BlankedTo(command[..], text, p, tokens != null)
      invariant Found(text, words, p) && count == |words|
      invariant tokens != null ==> count <= tokens.Length
      invariant tokens != null ==> forall j :: 0 <= j < count ==> TokenAt(text, tokens[j], words[j])
      invariant forall k :: |text| < k < command.Length ==> command[k] == old(command[k])
      decreases |text| - p
    {
      ghost var from := p;
      while IsSpace(command[p])
        invariant from <= p <= |text|
        invariant BlankedTo(command[..], text, p, tokens != null)
        invariant Found(text, words, p)
        invariant tokens != null ==> forall j :: 0 <= j < count ==> TokenAt(text, tokens[j], words[j])
        invariant forall k :: |text| < k < command.Length ==> command[k] == old(command[k])
        decreases |text| - p
      {
        assert p < |text| && command[p] == text[p];
        FoundSkip(text, words, p);
        if tokens != null {
          command[p] := NUL;
        }
        p := p + 1;
      }
      if command[p] == NUL {
        break;
      }
      assert p < |text| && command[p] == text[p];
      ghost var start, end := p, TokenEnd(text, p);
      FoundMore(text, words, start, end);
      FoundBound(text, words + [text[start..end]], end);
      if tokens != null {
        tokens[count] := p;
      }
      count := count + 1;
      words := words + [text[start..end]];
      while command[p] != NUL && !IsSpace(command[p])
        invariant start <= p <= end
        invariant BlankedTo(command[..], text, p, tokens != null)
        decreases end - p
      {
        p := p + 1;
      }
      assert p == end;
    }
    assert p == |text|;
    FoundAll(text, words);
    if tokens != null {
      forall j | 0 <= j < count ensures NoNul(words[j]) && PointsTo(command[..], tokens[j], words[j]) {
        TokenReads(command[..], text, tokens[j], words[j]);
      }
    }
  }

  // ---------- concat_args ----------

  /** The room concat_args asks for: one byte per argument beyond its text, and one for the end. */
  function Room(args: seq<cstring>): nat {
    if args == [] then 1 else Room(args[..|args| - 1]) + 1 + |args[|args| - 1]|
  }

  lemma {:induction false} JoinSnoc(args: seq<string>, w: string)
    ensures Join(args + [w]) == Join(args) + (if args == [] then "" else " ") + w
  {
    if args == [] {
      assert [] + [w] == [w];
    } else {
      assert (args + [w])[1..] == args[1..] + [w];
      JoinSnoc(args[1..], w);
    }
  }

  lemma {:induction false} JoinNoNul(args: seq<cstring>)
    ensures NoNul(Join(args))
    ensures Room(args) == |Join(args)| + if args == [] then 1 else 2
  {
    if args != [] {
      var init, last := args[..|args| - 1], args[|args| - 1];
      assert args == init + [last];
      JoinNoNul(init);
      JoinSnoc(init, last);
    }
  }

  /** The buffer's first len characters are the text written so far. */
  predicate Written(buf: seq<char>, len: nat, text: string) {
    len == |text| < |buf| && buf[..len] == text && buf[len] == NUL
  }

  /** One sprintf of an argument, after a space unless it is the first, with the terminator it adds. */
  method Append(s: array<char>, at: nat, space: bool, arg: cstring) returns (ptr: nat)
    requires at + (if space then 1 else 0) + |arg| < s.Length
    modifies s
    ensures ptr == at + (if space then 1 else 0) + |arg|
    ensures s[..ptr] == old(s[..at]) + (if space then " " else "") + arg && s[ptr] == NUL
  {
    ptr := at;
    if space {
      s[ptr] := ' ';
      ptr := ptr + 1;
    }
    ghost var head := s[..ptr];
    assert head == old(s[..at]) + if space then " " else "";
    for i := 0 to |arg|
      invariant ptr == |head| + i
      invariant s[..ptr] == head + arg[..i]
    {
      s[ptr] := arg[i];
      ptr := ptr + 1;
      assert arg[..i + 1] == arg[..i] + [arg[i]];
    }
    s[ptr] := NUL;
    assert arg[..|arg|] == arg;
  }

  lemma RoomGrows(args: seq<cstring>, i: nat)
    requires i <= |args|
    ensures Room(args[..i]) <= Room(args)
    decreases |args| - i
  {
    if i == |args| {
      assert args[..i] == args;
    } else {
      RoomGrows(args, i + 1);
      assert args[..i + 1][..i] == args[..i];
    }
  }

  /** The arguments joined by single spaces, in a buffer sized beforehand that is never overrun. */
  method ConcatArgs(args: seq<cstring>) returns (s: array<char>)
    ensures fresh(s) && s.Length == Room(args)
    ensures NoNul(Join(args)) && Holds(s[..], Join(args))
  {
    var len: nat := 1;
    for i := 0 to |args|
      invariant len == Room(args[..i])
    {
      assert args[..i + 1][..i] == args[..i];
      len := len + 1 + |args[i]|;
    }
    assert args[..|args|] == args;
    s := new char[len](_ => NUL);
    var ptr: nat := 0;
    for i := 0 to |args|
      invariant Written(s[..], ptr, Join(args[..i]))
      invariant fresh(s)
    {
      JoinNoNul(args[..i + 1]);
      RoomGrows(args, i + 1);
      JoinSnoc(args[..i], args[i]);
      assert args[..i + 1] == args[..i] + [args[i]];
      ptr := Append(s, ptr, i > 0, args[i]);
    }
    JoinNoNul(args);
    assert s[..][..ptr] == s[..][0..0 + ptr];
  }
}
