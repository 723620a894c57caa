/** The command parser of `apps/ui/app.py` (`parse_choice_to_intent`):
    split the text on whitespace, take the first word as the verb and read
    the arguments off the remaining words. */
module CommandParser {

  /** The characters Python's `str.split()` with no argument splits on. */
  predicate IsSpace(c: char) {
    || c == ' ' || c == '\t' || c == '\n' || c == '\r' || c == '\U{0B}' || c == '\U{0C}'
    || ('\U{1C}' <= c <= '\U{1F}')
    || c == '\U{85}' || c == '\U{A0}' || c == '\U{1680}'
    || ('\U{2000}' <= c <= '\U{200A}')
    || c == '\U{2028}' || c == '\U{2029}' || c == '\U{202F}' || c == '\U{205F}' || c == '\U{3000}'
  }

  /** A token of the split: non-empty, without whitespace. */
  predicate IsWord(t: string) {
    |t| > 0 && forall k :: 0 <= k < |t| ==> !IsSpace(t[k])
  }

  /** Length of the run of non-space characters that starts `s`. */
  function WordLength(s: string): (n: nat)
    ensures n <= |s|
    ensures forall k :: 0 <= k < n ==> !IsSpace(s[k])
    ensures n < |s| ==> IsSpace(s[n])
  {
    if |s| == 0 || IsSpace(s[0]) then 0 else 1 + WordLength(s[1..])
  }

  /** Whitespace splitting: the maximal runs of non-space characters, in order. */
  function Split(s: string): (words: seq<string>)
    ensures forall k :: 0 <= k < |words| ==> IsWord(words[k])
    decreases |s|
  {
    if |s| == 0 then []
    else if IsSpace(s[0]) then Split(s[1..])
    else
      var n := WordLength(s);
      [s[..n]] + Split(s[n..])
  }

  /** The words joined with single spaces. */
  function Join(words: seq<string>): string {
    if |words| == 0 then ""
    else if |words| == 1 then words[0]
    else words[0] + " " + Join(words[1..])
  }

  /** The characters of `s` that are not whitespace, in order. */
  function Solid(s: string): (r: string)
    ensures forall k :: 0 <= k < |r| ==> !IsSpace(r[k])
  {
    if |s| == 0 then ""
    else if IsSpace(s[0]) then Solid(s[1..])
    else [s[0]] + Solid(s[1..])
  }

  /** The words laid end to end. */
  function Concat(words: seq<string>): string {
    if |words| == 0 then "" else words[0] + Concat(words[1..])
  }

  lemma {:induction false} SolidAppend(a: string, b: string)
    ensures Solid(a + b) == Solid(a) + Solid(b)
  {
    if |a| == 0 {
      assert a + b == b;
    } else {
      assert (a + b)[0] == a[0];
      assert (a + b)[1..] == a[1..] + b;
      SolidAppend(a[1..], b);
    }
  }

  lemma {:induction false} SolidOfWord(t: string)
    requires forall k :: 0 <= k < |t| ==> !IsSpace(t[k])
    ensures Solid(t) == t
  {
    if |t| > 0 {
      SolidOfWord(t[1..]);
      assert t == [t[0]] + t[1..];
    }
  }

  /** Splitting loses only whitespace: the words, laid end to end, are the
      text's non-space characters in order. */
  lemma {:induction false} SplitKeepsContent(s: string)
    ensures Concat(Split(s)) == Solid(s)
    decreases |s|
  {
    if |s| == 0 {
    } else if IsSpace(s[0]) {
      SplitKeepsContent(s[1..]);
    } else {
      var n := WordLength(s);
      assert s == s[..n] + s[n..];
      SplitKeepsContent(s[n..]);
      SolidAppend(s[..n], s[n..]);
      SolidOfWord(s[..n]);
      assert Split(s)[0] == s[..n];
      assert Split(s)[1..] == Split(s[n..]);
    }
  }

  /** The caller's guard, `text.strip()` non-empty, is exactly what the
      parser needs: some character is not whitespace iff the split has a
      first word. */
  lemma SplitNonEmpty(s: string)
    ensures |Split(s)| > 0 <==> exists k :: 0 <= k < |s| && !IsSpace(s[k])
  {
    SplitKeepsContent(s);
    SolidNonEmpty(s);
  }

  lemma {:induction false} SolidNonEmpty(s: string)
    ensures |Solid(s)| > 0 <==> exists k :: 0 <= k < |s| && !IsSpace(s[k])
    decreases |s|
  {
    if |s| > 0 {
      SolidNonEmpty(s[1..]);
      if IsSpace(s[0]) {
        assert forall k :: 1 <= k < |s| ==> s[k] == s[1..][k - 1];
        if exists k :: 0 <= k < |s| && !IsSpace(s[k]) {
          var k :| 0 <= k < |s| && !IsSpace(s[k]);
          assert !IsSpace(s[1..][k - 1]);
        }
      }
    }
  }

  /** Leading whitespace does not matter. */
  lemma {:induction false} SplitSkipsSpaces(ws: string, q: string)
    requires forall k :: 0 <= k < |ws| ==> IsSpace(ws[k])
    ensures Split(ws + q) == Split(q)
    decreases |ws|
  {
    if |ws| > 0 {
      var s := ws + q;
      assert |s| > 0 && s[0] == ws[0] && IsSpace(s[0]);
      assert s[1..] == ws[1..] + q;
      assert Split(s) == Split(s[1..]);
      SplitSkipsSpaces(ws[1..], q);
    } else {
      assert ws + q == q;
    }
  }

  /** A word ends where it ended before text was appended, or at the end
      of `p` when the appended text starts with whitespace. */
  lemma {:induction false} WordLengthAppend(p: string, r: string)
    requires WordLength(p) < |p| || (|r| > 0 && IsSpace(r[0]))
    ensures WordLength(p + r) == WordLength(p)
    decreases |p|
  {
    if |p| == 0 {
    } else if IsSpace(p[0]) {
    } else {
      assert (p + r)[1..] == p[1..] + r;
      WordLengthAppend(p[1..], r);
    }
  }

  /** Runs of whitespace count as one space: widening a single separating
      space into any non-empty run of whitespace does not change the
      words. */
  lemma {:induction false} SplitCollapsesRuns(p: string, ws: string, q: string)
    requires |ws| > 0 && forall k :: 0 <= k < |ws| ==> IsSpace(ws[k])
    ensures Split(p + ws + q) == Split(p + " " + q)
    decreases |p|
  {
    var s1 := p + ws + q;
    var s2 := p + " " + q;
    if |p| == 0 {
      assert s1 == ws + q;
      assert s2 == " " + q;
      SplitSkipsSpaces(ws, q);
      SplitSkipsSpaces(" ", q);
    } else if IsSpace(p[0]) {
      assert s1[0] == p[0] && s2[0] == p[0];
      assert s1[1..] == p[1..] + ws + q;
      assert s2[1..] == p[1..] + " " + q;
      SplitCollapsesRuns(p[1..], ws, q);
    } else {
      var n := WordLength(p);
      assert s1 == p + (ws + q);
      assert s2 == p + (" " + q);
      WordLengthAppend(p, ws + q);
      WordLengthAppend(p, " " + q);
      assert s1[..n] == p[..n] && s2[..n] == p[..n];
      if n < |p| {
        assert s1[n..] == p[n..] + ws + q;
        assert s2[n..] == p[n..] + " " + q;
        SplitCollapsesRuns(p[n..], ws, q);
      } else {
        assert s1[n..] == ws + q;
        assert s2[n..] == " " + q;
        SplitSkipsSpaces(ws, q);
        SplitSkipsSpaces(" ", q);
      }
    }
  }

  /** Joining words with single spaces and splitting again gives the words
      back. */
  lemma {:induction false} SplitJoin(words: seq<string>)
    requires forall k :: 0 <= k < |words| ==> IsWord(words[k])
    ensures Split(Join(words)) == words
    decreases |words|
  {
    if |words| == 0 {
    } else {
      var t := words[0];
      var rest := if |words| == 1 then "" else " " + Join(words[1..]);
      assert Join(words) == t + rest;
      assert WordLength(t) == |t| by { WordLengthOfWord(t); }
      if |words| > 1 {
        WordLengthAppend(t, rest);
        SplitJoin(words[1..]);
        SplitSkipsSpaces(" ", Join(words[1..]));
        assert (t + rest)[|t|..] == rest;
        assert rest == " " + Join(words[1..]);
      } else {
        assert t + rest == t;
        assert t[|t|..] == "";
      }
      assert (t + rest)[..|t|] == t;
    }
  }

  lemma {:induction false} WordLengthOfWord(t: string)
    requires forall k :: 0 <= k < |t| ==> !IsSpace(t[k])
    ensures WordLength(t) == |t|
    decreases |t|
  {
    if |t| > 0 {
      WordLengthOfWord(t[1..]);
    }
  }

  /** The verb and the argument map the parser produces. */
  datatype Command = Command(verb: string, args: map<string, string>)

  /** The command parser. The caller guarantees a word is there. */
  function Parse(choice: string): (c: Command)
    requires |Split(choice)| > 0
    ensures c.verb == Split(choice)[0]
    ensures c.args.Keys <= {"target", "item"}
    ensures "item" in c.args ==> c.verb == "trade" && IsWord(c.args["item"]) && "target" in c.args
    ensures c.verb in {"inspect", "move", "talk"} && "target" in c.args ==>
              Split(c.args["target"]) == Split(choice)[1..]
    ensures c.verb == "trade" && "target" in c.args ==> IsWord(c.args["target"])
  {
    var parts := Split(choice);
    var verb := parts[0];
    if verb in {"inspect", "move", "talk"} && |parts| > 1 then
      SplitJoin(parts[1..]);
      Command(verb, map["target" := Join(parts[1..])])
    else if verb == "trade" && "with" in parts then
      Command(verb, map["target" := parts[|parts| - 1], "item" := parts[1]])
    else
      Command(verb, map[])
  }

  /** Which verbs get which arguments: a target verb with words after it
      gets `target` (those words joined by single spaces); `trade` with a
      `with` gets the second word as `item` and the last as `target`;
      everything else gets no arguments. */
  lemma ParseCases(choice: string)
    requires |Split(choice)| > 0
    ensures var parts := Split(choice);
            var c := Parse(choice);
            && (parts[0] in {"inspect", "move", "talk"} && |parts| > 1 ==>
                  c.args == map["target" := Join(parts[1..])])
            && (parts[0] == "trade" && "with" in parts ==>
                  c.args == map["target" := parts[|parts| - 1], "item" := parts[1]])
            && (!(parts[0] in {"inspect", "move", "talk"} && |parts| > 1) && !(parts[0] == "trade" && "with" in parts) ==>
                  c.args == map[])
  {
  }

  /** Runs of whitespace between words do not change the parse. */
  lemma ParseCollapsesRuns(p: string, ws: string, q: string)
    requires |ws| > 0 && forall k :: 0 <= k < |ws| ==> IsSpace(ws[k])
    requires |Split(p + " " + q)| > 0
    ensures |Split(p + ws + q)| > 0
    ensures Parse(p + ws + q) == Parse(p + " " + q)
  {
    SplitCollapsesRuns(p, ws, q);
  }

  /** Rendering a target command and parsing it back gives the verb and
      the target. */
  lemma ParseTargetCommand(verb: string, target: seq<string>)
    requires verb in {"inspect", "move", "talk"}
    requires |target| > 0 && forall k :: 0 <= k < |target| ==> IsWord(target[k])
    ensures |Split(Join([verb] + target))| > 0
    ensures Parse(Join([verb] + target)) == Command(verb, map["target" := Join(target)])
  {
    var words := [verb] + target;
    assert words[1..] == target;
    assert IsWord(verb);
    SplitJoin(words);
  }

  /** Rendering `trade <item> with <target>` and parsing it back gives the
      item and the target. */
  lemma ParseTradeCommand(item: string, target: string)
    requires IsWord(item) && IsWord(target)
    ensures |Split(Join(["trade", item, "with", target]))| > 0
    ensures Parse(Join(["trade", item, "with", target])) ==
              Command("trade", map["target" := target, "item" := item])
  {
    var words := ["trade", item, "with", target];
    assert IsWord("trade") && IsWord("with");
    SplitJoin(words);
    assert words[2] == "with";
  }

  /** The suggested choices the interface starts with. */
  const DefaultChoices: seq<string> :=
    ["inspect forest", "move forest", "talk blacksmith", "trade rare_ore with blacksmith"]

  /** `verb target` with a one-word target parses to that target. */
  lemma ParseTwoWords(verb: string, target: string)
    requires verb in {"inspect", "move", "talk"} && IsWord(target)
    ensures |Split(verb + " " + target)| > 0
    ensures Parse(verb + " " + target) == Command(verb, map["target" := target])
  {
    assert Join([verb] + [target]) == verb + " " + target;
    ParseTargetCommand(verb, [target]);
  }

  /** `trade rare_ore with blacksmith` parses to that item and target. */
  lemma ParseDefaultTrade()
    ensures |Split("trade rare_ore with blacksmith")| > 0
    ensures Parse("trade rare_ore with blacksmith") == Command("trade", map["target" := "blacksmith", "item" := "rare_ore"])
  {
    assert IsWord("blacksmith");
    assert IsWord("rare_ore");
    var words := ["trade", "rare_ore", "with", "blacksmith"];
    assert Join(words[3..]) == "blacksmith";
    assert Join(words[2..]) == "with" + " " + "blacksmith";
    assert Join(words[1..]) == "rare_ore" + " " + ("with" + " " + "blacksmith");
    assert Join(words) == "trade" + " " + ("rare_ore" + " " + ("with" + " " + "blacksmith"));
    assert "trade" + " " + ("rare_ore" + " " + ("with" + " " + "blacksmith")) == "trade rare_ore with blacksmith";
    ParseTradeCommand("rare_ore", "blacksmith");
  }

  /** The default `inspect forest` choice parses to its verb and target. */
  lemma DefaultInspectChoiceParses()
    ensures |Split(DefaultChoices[0])| > 0 && Parse(DefaultChoices[0]) == Command("inspect", map["target" := "forest"])
  {
    ParseDefaultTarget("inspect", "forest", DefaultChoices[0]);
  }

  /** The default `move forest` choice parses to its verb and target. */
  lemma DefaultMoveChoiceParses()
    ensures |Split(DefaultChoices[1])| > 0 && Parse(DefaultChoices[1]) == Command("move", map["target" := "forest"])
  {
    ParseDefaultTarget("move", "forest", DefaultChoices[1]);
  }

  /** The default `talk blacksmith` choice parses to its verb and target. */
  lemma DefaultTalkChoiceParses()
    ensures |Split(DefaultChoices[2])| > 0 && Parse(DefaultChoices[2]) == Command("talk", map["target" := "blacksmith"])
  {
    ParseDefaultTarget("talk", "blacksmith", DefaultChoices[2]);
  }

  /** The default trade choice parses to its item and target. */
  lemma DefaultTradeChoiceParses()
    ensures |Split(DefaultChoices[3])| > 0
    ensures Parse(DefaultChoices[3]) == Command("trade", map["target" := "blacksmith", "item" := "rare_ore"])
  {
    ParseDefaultTrade();
  }

  lemma ParseDefaultTarget(verb: string, target: string, choice: string)
    requires verb in {"inspect", "move", "talk"} && target in {"forest", "blacksmith"}
    requires choice == verb + " " + target
    ensures |Split(choice)| > 0
    ensures Parse(choice) == Command(verb, map["target" := target])
  {
    assert IsWord(target);
    ParseTwoWords(verb, target);
  }
}
