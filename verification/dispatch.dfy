/** The words the event loop receives and the command each one selects.
    Tag commands arrive as their own name ("DotDot", "Hidden"), or as the
    name followed by the location of the selection ("Win", "Xplor"); a
    middle click in the body arrives as "X" and a character address; a
    right click in the body as the bare character address. */
module Dispatch {

  /** What a word asks for; the payload is the rest of the word. */
  datatype Command =
    | DotDot
    | Hidden
    | Win(loc: string)
    | Xplor(loc: string)
    | Exec(charaddr: string)
    | Look(charaddr: string)

  /** `word` starts with `p`. */
  predicate HasPrefix(word: string, p: string)
  {
    |word| >= |p| && word[..|p|] == p
  }

  /** The prefix tests of the main loop, in their order. The source reads
      the first character of the word, so the word is never empty. */
  function Classify(word: string): (c: Command)
    requires word != []
    ensures c.DotDot? <==> HasPrefix(word, "DotDot")
    ensures c.Hidden? <==> HasPrefix(word, "Hidden") && !HasPrefix(word, "DotDot")
    ensures c.Win? ==> word == "Win" + c.loc
    ensures c.Xplor? ==> word == "Xplor" + c.loc && !HasPrefix(word, "Win")
    ensures c.Exec? ==> word == "X" + c.charaddr && !HasPrefix(word, "Xplor")
    ensures c.Look? ==> word == c.charaddr && word[0] != 'X'
  {
    if HasPrefix(word, "DotDot") then DotDot
    else if HasPrefix(word, "Hidden") then Hidden
    else if HasPrefix(word, "Win") then
      assert word == word[..3] + word[3..];
      Win(word[3..])
    else if HasPrefix(word, "Xplor") then
      assert word == word[..5] + word[5..];
      Xplor(word[5..])
    else if word[0] == 'X' then
      assert word == [word[0]] + word[1..];
      Exec(word[1..])
    else Look(word)
  }

  /** A character address as the event loop prints it: decimal digits. */
  predicate Decimal(s: string)
  {
    s != [] && forall k :: 0 <= k < |s| ==> '0' <= s[k] <= '9'
  }

  /** Commands the event loop can send: body clicks carry a decimal
      character address. */
  predicate Sendable(c: Command)
  {
    (c.Exec? ==> Decimal(c.charaddr)) && (c.Look? ==> Decimal(c.charaddr))
  }

  /** The word the event loop sends for a command. */
  function Word(c: Command): (w: string)
    requires Sendable(c)
    ensures w != []
  {
    match c
    case DotDot => "DotDot"
    case Hidden => "Hidden"
    case Win(loc) => "Win" + loc
    case Xplor(loc) => "Xplor" + loc
    case Exec(a) => "X" + a
    case Look(a) => a
  }

  /** Every word the event loop sends is dispatched to the command it was
      sent for: the prefix tests never mistake one command for another. */
  lemma ClassifyWord(c: Command)
    requires Sendable(c)
    ensures Classify(Word(c)) == c
  {
    var w := Word(c);
    match c
    case DotDot =>
    case Hidden =>
      assert !HasPrefix(w, "DotDot") by { assert w[0] == 'H'; }
    case Win(loc) =>
      assert w[..3] == "Win";
      assert !HasPrefix(w, "DotDot") && !HasPrefix(w, "Hidden") by { assert w[0] == 'W'; }
    case Xplor(loc) =>
      assert w[..5] == "Xplor";
      assert !HasPrefix(w, "DotDot") && !HasPrefix(w, "Hidden") && !HasPrefix(w, "Win") by { assert w[0] == 'X'; }
    case Exec(a) =>
      assert w[0] == 'X';
      assert !HasPrefix(w, "Xplor") by { assert w[1] == a[0]; }
      assert !HasPrefix(w, "DotDot") && !HasPrefix(w, "Hidden") && !HasPrefix(w, "Win");
      assert w[1..] == a;
    case Look(a) =>
      assert w == a && '0' <= w[0] <= '9';
      assert !HasPrefix(w, "DotDot") && !HasPrefix(w, "Hidden") && !HasPrefix(w, "Win") && !HasPrefix(w, "Xplor");
  }

  /** The order of the tests matters where prefixes overlap: a word such
      as "Xplor12" is an Xplor command, never an Exec of "plor12"; any word
      starting with "X" that is not an Xplor command is an Exec. */
  lemma XplorBeforeExec(word: string)
    requires HasPrefix(word, "X")
    ensures Classify(word).Xplor? || Classify(word).Exec?
    ensures Classify(word).Exec? <==> !HasPrefix(word, "Xplor")
  {
    assert word[0] == 'X';
    assert !HasPrefix(word, "DotDot") && !HasPrefix(word, "Hidden") && !HasPrefix(word, "Win");
  }
}
