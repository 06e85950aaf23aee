/** Building a Windows command line from argument words, and Microsoft's rules for
    splitting one ("Parsing C command-line arguments"): the second undoes the first. */
module CommandLine {
  import opened Basics

  function Slashes(count: nat): (s: string)
    ensures |s| == count
  {
    if count == 0 then "" else ['\\'] + Slashes(count - 1)
  }

  // ---- quoting -------------------------------------------------------------------

  predicate Special(c: char) {
    c == ' ' || c == '\t' || c == '\n' || c == '\U{000B}' || c == '"'
  }

  predicate Plain(word: string) {
    word != "" && forall i :: 0 <= i < |word| ==> !Special(word[i])
  }

  /** `word` as it stands between quotes, after `slashes` backslashes not written yet. */
  function Escaped(word: string, slashes: nat): string {
    if word == "" then Slashes(slashes * 2)
    else if word[0] == '\\' then Escaped(word[1..], slashes + 1)
    else if word[0] == '"' then Slashes(slashes * 2 + 1) + "\"" + Escaped(word[1..], 0)
    else Slashes(slashes) + [word[0]] + Escaped(word[1..], 0)
  }

  function Quoted(word: string): (s: string)
    ensures s != ""
  {
    if Plain(word) then word else "\"" + Escaped(word, 0) + "\""
  }

  /** Each word behind a separating space. */
  function Tail(words: seq<string>): string {
    if words == [] then "" else " " + Quoted(words[0]) + Tail(words[1..])
  }

  method FindSpecial(word: string) returns (found: bool)
    ensures found <==> exists i :: 0 <= i < |word| && Special(word[i])
  {
    for i := 0 to |word|
      invariant forall j :: 0 <= j < i ==> !Special(word[j])
    {
      if Special(word[i]) {
        return true;
      }
    }
    return false;
  }

  /** Appends one argument to the line, quoted if it has to be. */
  method AppendQuoted(line0: string, word: string) returns (line: string)
    ensures line == line0 + Quoted(word)
  {
    var found := FindSpecial(word);
    if word != "" && !found {
      return line0 + word;
    }
    line := line0 + "\"";
    var slashes := 0;
    ghost var target := line + Escaped(word, 0);
    for i := 0 to |word|
      invariant line + Escaped(word[i..], slashes) == target
    {
      var c := word[i];
      assert word[i..] == [c] + word[i + 1..];
      EscapedStep(line, c, slashes, word[i + 1..]);
      if c == '\\' {
        slashes := slashes + 1;
        continue;
      }
      if c == '"' {
        line := line + Slashes(slashes * 2 + 1);
      } else {
        line := line + Slashes(slashes);
      }
      slashes := 0;
      line := line + [c];
    }
    assert word[|word|..] == "";
    line := line + Slashes(slashes * 2);
    assert line == target;
    Surround(line0, Escaped(word, 0));
    line := line + "\"";
  }

  lemma Surround(line: string, body: string)
    ensures ((line + "\"") + body) + "\"" == line + ("\"" + body + "\"")
  {
  }

  /** Backslashes in front of a character that is not one, as they are written. */
  function Weight(c: char, slashes: nat): nat {
    if c == '"' then slashes * 2 + 1 else slashes
  }

  lemma EscapedStep(line: string, c: char, slashes: nat, rest: string)
    ensures c == '\\' ==> Escaped([c] + rest, slashes) == Escaped(rest, slashes + 1)
    ensures c != '\\' ==>
              line + Slashes(Weight(c, slashes)) + [c] + Escaped(rest, 0) == line + Escaped([c] + rest, slashes)
  {
    assert ([c] + rest)[1..] == rest;
    var before := Slashes(Weight(c, slashes));
    Reassociate(line, before, [c]);
    Reassociate(line, before + [c], Escaped(rest, 0));
  }

  /** The whole command line. */
  method Join(command: seq<string>) returns (line: string)
    requires command != []
    ensures line == Quoted(command[0]) + Tail(command[1..])
  {
    line := "";
    for i := 0 to |command|
      invariant line == Joined(command, i)
    {
      if line != "" {
        line := line + " ";
      }
      line := AppendQuoted(line, command[i]);
    }
    JoinedIsTail(command, |command|);
    assert command[|command|..] == [] && line + "" == line;
  }

  /** The line after `count` words. */
  function Joined(command: seq<string>, count: nat): (line: string)
    requires count <= |command|
    ensures line == "" <==> count == 0
  {
    if count == 0 then ""
    else
      var before := Joined(command, count - 1);
      (if before == "" then "" else before + " ") + Quoted(command[count - 1])
  }

  lemma {:induction false} JoinedIsTail(command: seq<string>, count: nat)
    requires 0 < count <= |command|
    ensures Joined(command, count) + Tail(command[count..]) == Quoted(command[0]) + Tail(command[1..])
  {
    if count == 1 {
      assert Joined(command, 1) == "" + Quoted(command[0]) == Quoted(command[0]);
    } else {
      JoinedIsTail(command, count - 1);
      NextWord(Joined(command, count - 1), command, count - 1);
    }
  }

  lemma NextWord(line: string, command: seq<string>, i: nat)
    requires i < |command|
    ensures line + Tail(command[i..]) == line + " " + Quoted(command[i]) + Tail(command[i + 1..])
  {
    assert command[i..][1..] == command[i + 1..];
  }

  // ---- splitting -----------------------------------------------------------------

  predicate Blank(c: char) { c == ' ' || c == '\t' }

  /** One argument from the front of `rest`: the argument, and what is behind it. `slashes`
      backslashes have been read and not yet interpreted. A pair of quotes inside a quoted
      part stands for one quote. */
  function Argument(rest: string, quoted: bool, slashes: nat, sofar: string): (string, string)
    decreases rest
  {
    if rest == "" then (sofar + Slashes(slashes), rest)
    else if rest[0] == '\\' then Argument(rest[1..], quoted, slashes + 1, sofar)
    else if rest[0] == '"' then
      var sofar' := sofar + Slashes(slashes / 2);
      if slashes % 2 == 1 then Argument(rest[1..], quoted, 0, sofar' + "\"")
      else if quoted && |rest| > 1 && rest[1] == '"' then Argument(rest[2..], quoted, 0, sofar' + "\"")
      else Argument(rest[1..], !quoted, 0, sofar')
    else if !quoted && Blank(rest[0]) then (sofar + Slashes(slashes), rest)
    else Argument(rest[1..], quoted, 0, sofar + Slashes(slashes) + [rest[0]])
  }

  lemma {:induction false} ArgumentShrinks(rest: string, quoted: bool, slashes: nat, sofar: string)
    ensures |Argument(rest, quoted, slashes, sofar).1| <= |rest|
    ensures rest != "" && !Blank(rest[0]) ==> |Argument(rest, quoted, slashes, sofar).1| < |rest|
    decreases rest
  {
    if rest != "" {
      if rest[0] == '\\' {
        ArgumentShrinks(rest[1..], quoted, slashes + 1, sofar);
      } else if rest[0] == '"' {
        var sofar' := sofar + Slashes(slashes / 2);
        ArgumentShrinks(rest[1..], quoted, 0, sofar' + "\"");
        ArgumentShrinks(rest[1..], !quoted, 0, sofar');
        if |rest| > 1 {
          ArgumentShrinks(rest[2..], quoted, 0, sofar' + "\"");
        }
      } else if quoted || !Blank(rest[0]) {
        ArgumentShrinks(rest[1..], quoted, 0, sofar + Slashes(slashes) + [rest[0]]);
      }
    }
  }

  /** The arguments of `rest`, which begins behind an argument. */
  function Arguments(rest: string): seq<string>
    decreases |rest|
  {
    if rest == "" then []
    else if Blank(rest[0]) then Arguments(rest[1..])
    else
      ArgumentShrinks(rest, false, 0, "");
      var (argument, behind) := Argument(rest, false, 0, "");
      [argument] + Arguments(behind)
  }

  /** What is behind the program name, in which backslashes mean nothing special. */
  function BehindProgram(rest: string, quoted: bool): string
    decreases rest
  {
    if rest == "" then ""
    else if rest[0] == '"' then BehindProgram(rest[1..], !quoted)
    else if !quoted && Blank(rest[0]) then rest
    else BehindProgram(rest[1..], quoted)
  }

  /** The arguments of a command line after the program name. */
  function Split(line: string): seq<string> {
    Arguments(BehindProgram(line, false))
  }

  // ---- the round trip ------------------------------------------------------------

  /** An argument may end in front of `tail`. */
  predicate Ends(tail: string) {
    tail == "" || tail[0] == ' '
  }

  lemma {:induction false} ReadSlashes(count: nat, rest: string, quoted: bool, slashes: nat, sofar: string)
    ensures Argument(Slashes(count) + rest, quoted, slashes, sofar) == Argument(rest, quoted, slashes + count, sofar)
    decreases count
  {
    if count == 0 {
      assert Slashes(0) + rest == rest;
    } else {
      assert (Slashes(count) + rest)[1..] == Slashes(count - 1) + rest;
      ReadSlashes(count - 1, rest, quoted, slashes + 1, sofar);
    }
  }

  lemma {:induction false} MoreSlashes(count: nat)
    ensures Slashes(count) + "\\" == Slashes(count + 1)
  {
    if count > 0 {
      MoreSlashes(count - 1);
      assert Slashes(count) + "\\" == ['\\'] + (Slashes(count - 1) + "\\");
    }
  }

  /** Inside quotes, the parser reads back exactly the word that was escaped, and then the
      closing quote. */
  lemma {:induction false} ReadEscaped(word: string, slashes: nat, sofar: string, tail: string)
    requires Ends(tail)
    ensures Argument(Escaped(word, slashes) + "\"" + tail, true, 0, sofar)
            == Argument(tail, false, 0, sofar + Slashes(slashes) + word)
    decreases word
  {
    if word == "" {
      ReadEnd(slashes, sofar, tail);
    } else if word[0] == '\\' {
      ReadEscaped(word[1..], slashes + 1, sofar, tail);
      MoreSlashes(slashes);
      assert sofar + Slashes(slashes) + word == sofar + (Slashes(slashes) + "\\") + word[1..];
    } else {
      ReadEscaped(word[1..], 0, sofar + Slashes(slashes) + [word[0]], tail);
      EscapedUnfolds(word, slashes, tail);
      ReadOther(word[0], slashes, sofar, Escaped(word[1..], 0) + "\"" + tail);
      assert sofar + Slashes(slashes) + [word[0]] + Slashes(0) + word[1..] == sofar + Slashes(slashes) + word;
    }
  }

  lemma ReadEnd(slashes: nat, sofar: string, tail: string)
    requires Ends(tail)
    ensures Argument(Escaped("", slashes) + "\"" + tail, true, 0, sofar)
            == Argument(tail, false, 0, sofar + Slashes(slashes) + "")
  {
    var rest := "\"" + tail;
    assert Escaped("", slashes) + "\"" + tail == Slashes(slashes * 2) + rest;
    ReadSlashes(slashes * 2, rest, true, 0, sofar);
    assert rest[1..] == tail;
    assert sofar + Slashes(slashes) + "" == sofar + Slashes(slashes);
  }

  lemma EscapedUnfolds(word: string, slashes: nat, tail: string)
    requires word != "" && word[0] != '\\'
    ensures Escaped(word, slashes) + "\"" + tail
            == Slashes(Weight(word[0], slashes)) + ([word[0]] + (Escaped(word[1..], 0) + "\"" + tail))
  {
    Regroup(Slashes(Weight(word[0], slashes)), [word[0]], Escaped(word[1..], 0), "\"", tail);
  }

  lemma ReadOther(c: char, slashes: nat, sofar: string, behind: string)
    requires c != '\\'
    ensures Argument(Slashes(Weight(c, slashes)) + ([c] + behind), true, 0, sofar)
            == Argument(behind, true, 0, sofar + Slashes(slashes) + [c])
  {
    ReadSlashes(Weight(c, slashes), [c] + behind, true, 0, sofar);
    if c == '"' {
      ReadLiteralQuote(slashes, behind, sofar);
    } else {
      ReadLiteral(c, slashes, behind, sofar);
    }
  }

  lemma Regroup(a: string, b: string, c: string, d: string, e: string)
    ensures (a + b + c) + d + e == a + (b + (c + d + e))
  {
  }

  lemma ReadLiteralQuote(slashes: nat, behind: string, sofar: string)
    ensures Argument(['"'] + behind, true, slashes * 2 + 1, sofar)
            == Argument(behind, true, 0, sofar + Slashes(slashes) + ['"'])
  {
    assert (['"'] + behind)[1..] == behind;
    assert (slashes * 2 + 1) / 2 == slashes && (slashes * 2 + 1) % 2 == 1;
  }

  lemma ReadLiteral(c: char, slashes: nat, behind: string, sofar: string)
    requires c != '"' && c != '\\'
    ensures Argument([c] + behind, true, slashes, sofar) == Argument(behind, true, 0, sofar + Slashes(slashes) + [c])
  {
    assert ([c] + behind)[1..] == behind;
  }

  /** A plain word is read back as it stands. */
  lemma {:induction false} ReadPlain(word: string, slashes: nat, sofar: string, tail: string)
    requires Ends(tail) && forall i :: 0 <= i < |word| ==> !Special(word[i])
    ensures Argument(word + tail, false, slashes, sofar) == (sofar + Slashes(slashes) + word, tail)
    decreases word
  {
    if word == "" {
      assert word + tail == tail;
      assert sofar + Slashes(slashes) + word == sofar + Slashes(slashes);
    } else {
      assert (word + tail)[1..] == word[1..] + tail;
      if word[0] == '\\' {
        ReadPlain(word[1..], slashes + 1, sofar, tail);
        MoreSlashes(slashes);
        assert sofar + Slashes(slashes) + word == sofar + (Slashes(slashes) + "\\") + word[1..];
      } else {
        ReadPlain(word[1..], 0, sofar + Slashes(slashes) + [word[0]], tail);
        assert sofar + Slashes(slashes) + [word[0]] + Slashes(0) + word[1..] == sofar + Slashes(slashes) + word;
      }
    }
  }

  lemma ReadQuoted(word: string, tail: string)
    requires Ends(tail)
    ensures Argument(Quoted(word) + tail, false, 0, "") == (word, tail)
  {
    if Plain(word) {
      ReadPlain(word, 0, "", tail);
      assert "" + Slashes(0) + word == word;
    } else {
      var rest := Escaped(word, 0) + "\"" + tail;
      assert Quoted(word) + tail == "\"" + rest;
      assert ("\"" + rest)[1..] == rest;
      assert "" + Slashes(0) == "";
      ReadEscaped(word, 0, "", tail);
      assert "" + Slashes(0) + word == word;
      ReadPlain("", 0, word, tail);
      assert "" + tail == tail && word + Slashes(0) + "" == word;
    }
  }

  lemma ArgumentsOfOne(rest: string, argument: string, behind: string)
    requires rest != "" && !Blank(rest[0]) && Argument(rest, false, 0, "") == (argument, behind)
    ensures Arguments(" " + rest) == [argument] + Arguments(behind)
  {
    ArgumentShrinks(rest, false, 0, "");
    assert (" " + rest)[1..] == rest;
  }

  lemma BlankInFront(word: string, tail: string)
    requires word != ""
    ensures " " + word + tail == " " + (word + tail) && (word + tail)[0] == word[0]
  {
  }

  /** A blank, a quoted word and the end of the line or another blank: one argument. */
  lemma {:induction false} ArgumentsOfFirst(word: string, tail: string)
    requires Ends(tail)
    ensures Arguments(" " + Quoted(word) + tail) == [word] + Arguments(tail)
  {
    BlankInFront(Quoted(word), tail);
    QuotedIsNotBlank(word);
    ReadQuoted(word, tail);
    ArgumentsOfOne(Quoted(word) + tail, word, tail);
  }

  lemma {:induction false} TailEnds(words: seq<string>)
    ensures Ends(Tail(words))
  {
  }

  lemma {:induction false} ArgumentsOfTail(words: seq<string>)
    ensures Arguments(Tail(words)) == words
  {
    if words != [] {
      var tail := Tail(words[1..]);
      TailEnds(words[1..]);
      ArgumentsOfFirst(words[0], tail);
      ArgumentsOfTail(words[1..]);
      assert [words[0]] + words[1..] == words;
    }
  }

  lemma QuotedIsNotBlank(word: string)
    ensures !Blank(Quoted(word)[0])
  {
  }

  lemma {:induction false} SkipPlainPart(part: string, tail: string)
    requires Ends(tail) && forall i :: 0 <= i < |part| ==> !Special(part[i])
    ensures BehindProgram(part + tail, false) == tail
    decreases part
  {
    if part == "" {
      assert part + tail == tail;
    } else {
      assert (part + tail)[1..] == part[1..] + tail;
      SkipPlainPart(part[1..], tail);
    }
  }

  /** Read as the program name is, from inside or outside quotes, `word` and a closing
      quote end in front of the arguments: each quote goes in or out, no blank lies
      outside, and the closing quote is met inside. */
  predicate Closes(word: string, inside: bool) {
    if word == "" then inside
    else if word[0] == '"' then Closes(word[1..], !inside)
    else (inside || !Blank(word[0])) && Closes(word[1..], inside)
  }

  /** A blank lies outside. */
  predicate Leaves(word: string, inside: bool) {
    word != "" &&
    if word[0] == '"' then Leaves(word[1..], !inside)
    else (!inside && Blank(word[0])) || Leaves(word[1..], inside)
  }

  /** The program names that keep the arguments where they are: plain ones, and those with
      an even number of quotes and no blank behind an odd number of them. */
  predicate RoundTrips(program: string) {
    Plain(program) || Closes(program, true)
  }

  lemma {:induction false} QuoteFreeCloses(word: string)
    requires '"' !in word
    ensures Closes(word, true)
  {
    if word != "" { QuoteFreeCloses(word[1..]); }
  }

  lemma {:induction false} SkipSlashes(count: nat, rest: string, inside: bool)
    ensures BehindProgram(Slashes(count) + rest, inside) == BehindProgram(rest, inside)
    decreases count
  {
    if count == 0 {
      assert Slashes(count) + rest == rest;
    } else {
      assert (Slashes(count) + rest)[1..] == Slashes(count - 1) + rest;
      SkipSlashes(count - 1, rest, inside);
    }
  }

  /** One character of an escaped word, read as part of the program name. */
  lemma {:induction false} SkipEscaped(word: string, slashes: nat, behind: string, inside: bool)
    requires word != "" && word[0] != '\\'
    ensures var rest := Escaped(word[1..], 0) + behind;
      BehindProgram(Escaped(word, slashes) + behind, inside) == BehindProgram([word[0]] + rest, inside)
  {
    var rest := Escaped(word[1..], 0) + behind;
    var count := if word[0] == '"' then slashes * 2 + 1 else slashes;
    assert Escaped(word, slashes) + behind == Slashes(count) + ([word[0]] + rest);
    SkipSlashes(count, [word[0]] + rest, inside);
  }

  lemma OneFurther(c: char, rest: string, inside: bool)
    ensures BehindProgram([c] + rest, inside)
      == if c == '"' then BehindProgram(rest, !inside)
         else if !inside && Blank(c) then [c] + rest
         else BehindProgram(rest, inside)
  {
    assert ([c] + rest)[1..] == rest;
  }

  /** With every blank inside, the whole escaped word is the program's. */
  lemma {:induction false} SkipWord(word: string, slashes: nat, tail: string, inside: bool)
    requires !Leaves(word, inside)
    ensures BehindProgram(Escaped(word, slashes) + ("\"" + tail), inside) == BehindProgram(tail, !Closes(word, inside))
    decreases word
  {
    if word == "" {
      SkipSlashes(slashes * 2, "\"" + tail, inside);
      OneFurther('"', tail, inside);
    } else if word[0] == '\\' {
      SkipWord(word[1..], slashes + 1, tail, inside);
    } else {
      SkipEscaped(word, slashes, "\"" + tail, inside);
      OneFurther(word[0], Escaped(word[1..], 0) + ("\"" + tail), inside);
      SkipWord(word[1..], 0, tail, if word[0] == '"' then !inside else inside);
    }
  }

  lemma {:induction false} ClosedStaysIn(word: string, inside: bool)
    requires Closes(word, inside)
    ensures !Leaves(word, inside)
  {
    if word != "" { ClosedStaysIn(word[1..], if word[0] == '"' then !inside else inside); }
  }

  /** A blank outside ends the program name early: what is behind still holds the closing quote. */
  lemma {:induction false} LeavesQuoteBehind(word: string, slashes: nat, inside: bool)
    requires Leaves(word, inside)
    ensures var r := BehindProgram(Escaped(word, slashes) + "\"", inside); r != "" && r[|r| - 1] == '"'
    decreases word
  {
    if word[0] == '\\' {
      LeavesQuoteBehind(word[1..], slashes + 1, inside);
    } else {
      SkipEscaped(word, slashes, "\"", inside);
      OneFurther(word[0], Escaped(word[1..], 0) + "\"", inside);
      if word[0] == '"' || inside || !Blank(word[0]) {
        LeavesQuoteBehind(word[1..], 0, if word[0] == '"' then !inside else inside);
      }
    }
  }

  lemma {:induction false} SomethingIsAnArgument(rest: string)
    requires rest != "" && rest[|rest| - 1] == '"'
    ensures Arguments(rest) != []
    decreases |rest|
  {
    if Blank(rest[0]) { SomethingIsAnArgument(rest[1..]); }
  }

  /** What is behind the program name of the joined line. */
  lemma QuotedProgram(program: string, tail: string)
    requires !Plain(program)
    ensures BehindProgram(Quoted(program) + tail, false) == BehindProgram(Escaped(program, 0) + ("\"" + tail), true)
  {
    var behind := Escaped(program, 0) + ("\"" + tail);
    assert Quoted(program) + tail == ['"'] + behind;
    OneFurther('"', behind, false);
  }

  lemma ProgramIsSkipped(program: string, tail: string)
    requires RoundTrips(program) && Ends(tail)
    ensures BehindProgram(Quoted(program) + tail, false) == tail
  {
    if Plain(program) {
      SkipPlainPart(program, tail);
    } else {
      QuotedProgram(program, tail);
      ClosedStaysIn(program, true);
      SkipWord(program, 0, tail, true);
    }
  }

  /** The round trip: splitting the joined command line gives back every argument word
      after the program name, whatever the words hold: blanks, quotes, runs of backslashes
      in front of quotes, nothing at all. */
  lemma SplitUndoesJoin(program: string, words: seq<string>)
    requires RoundTrips(program)
    ensures Split(Quoted(program) + Tail(words)) == words
  {
    TailEnds(words);
    ProgramIsSkipped(program, Tail(words));
    ArgumentsOfTail(words);
  }

  /** Any other program name shifts the arguments of some line: an unclosed one swallows the
      first argument, and one that is left early leaves an argument behind. */
  lemma OthersShift(program: string) returns (words: seq<string>)
    requires !RoundTrips(program)
    ensures Split(Quoted(program) + Tail(words)) != words
  {
    if Leaves(program, true) {
      words := [];
      QuotedProgram(program, "");
      assert "\"" + "" == "\"";
      LeavesQuoteBehind(program, 0, true);
      SomethingIsAnArgument(BehindProgram(Escaped(program, 0) + "\"", true));
    } else {
      words := ["b"];
      UnclosedSwallows(program);
    }
  }

  lemma UnclosedSwallows(program: string)
    requires !RoundTrips(program) && !Leaves(program, true)
    ensures Split(Quoted(program) + Tail(["b"])) == []
  {
    assert Tail(["b"]) == " b" by {
      assert Tail([]) == "" && Quoted("b") == "b";
    }
    QuotedProgram(program, " b");
    SkipWord(program, 0, " b", true);
    assert " b"[1..] == "b" && "b"[1..] == "";
    assert BehindProgram(" b", true) == BehindProgram("b", true) == "";
  }

  /** The round trip holds for all lists of arguments exactly for these program names, which
      include every one without a quote. */
  lemma RoundTripBoundary(program: string)
    ensures (forall words: seq<string> :: Split(Quoted(program) + Tail(words)) == words) <==> RoundTrips(program)
    ensures '"' !in program ==> RoundTrips(program)
  {
    if RoundTrips(program) {
      forall words: seq<string> ensures Split(Quoted(program) + Tail(words)) == words {
        SplitUndoesJoin(program, words);
      }
    } else {
      var words := OthersShift(program);
    }
    if '"' !in program { QuoteFreeCloses(program); }
  }

  /** Such as the program `a"`, which swallows its first argument. */
  lemma QuoteInProgramShifts()
    ensures Split(Quoted("a\"") + Tail(["b"])) != ["b"]
  {
    var program := "a\"";
    assert program[1..] == "\"" && "\""[1..] == "";
    assert !Closes("", false) && !Closes("\"", true) && !Closes(program, true);
    assert !Leaves("", false) && !Leaves("\"", true) && !Leaves(program, true);
    UnclosedSwallows(program);
  }

  datatype Line = Line(text: string) | InvalidArgument

  /** The line that the launcher builds. */
  method LaunchLine(command: seq<string>) returns (line: Line)
    ensures line == InvalidArgument <==> command == []
    ensures command != [] ==> line.text == Quoted(command[0]) + Tail(command[1..])
    ensures command != [] && RoundTrips(command[0]) ==> Split(line.text) == command[1..]
  {
    if command == [] {
      return InvalidArgument;
    }
    var text := Join(command);
    if RoundTrips(command[0]) {
      SplitUndoesJoin(command[0], command[1..]);
    }
    return Line(text);
  }
}
