/** The `morse` codec over the static table of the source. */
module Morse {
  import opened Common
  import opened Text

  /** `dict(MORSE)`: character to pattern. A Dafny map display, like a dict
      built from pairs, lets a later binding of a key override an earlier
      one; the bindings are listed in the order of the source table,
      including its pairs (' ', "/") and ('', ''). */
  const Patterns: map<string, string> := map[
    "A" := ".-", "B" := "-..", "C" := "-.-.", "D" := "-..", "E" := ".",
    "F" := "..-.", "G" := "--.", "H" := "....", "I" := "..", "J" := ".---",
    "K" := "-.-", "L" := ".-..", "M" := "--", "N" := "-.", "O" := "---",
    "P" := ".--.", "Q" := "--.-", "R" := ".-.", "S" := "...", "T" := "-",
    "U" := "..-", "V" := "...-", "W" := ".--", "X" := "-..-", "Y" := "-.--",
    "Z" := "--..", "0" := "-----", "1" := ".----", "2" := "..---",
    "3" := "...--", "4" := "....-", "5" := ".....", "6" := "-....",
    "7" := "--...", "8" := "---..", "9" := "----.", " " := "/",
    "." := ".-.-.-", "," := "--..--", "?" := "..--..", "" := ""]

  /** `dict((c, m) for m, c in MORSE)`: pattern to character, the same pairs
      swapped and in the same order, so that "-.." ends up bound to "D". */
  const Letters: map<string, string> := map[
    ".-" := "A", "-.." := "B", "-.-." := "C", "-.." := "D", "." := "E",
    "..-." := "F", "--." := "G", "...." := "H", ".." := "I", ".---" := "J",
    "-.-" := "K", ".-.." := "L", "--" := "M", "-." := "N", "---" := "O",
    ".--." := "P", "--.-" := "Q", ".-." := "R", "..." := "S", "-" := "T",
    "..-" := "U", "...-" := "V", ".--" := "W", "-..-" := "X", "-.--" := "Y",
    "--.." := "Z", "-----" := "0", ".----" := "1", "..---" := "2",
    "...--" := "3", "....-" := "4", "....." := "5", "-...." := "6",
    "--..." := "7", "---.." := "8", "----." := "9", "/" := " ",
    ".-.-.-" := ".", "--..--" := ",", "..--.." := "?", "" := ""]

  /** The character `c` has an entry in the table. */
  predicate Encodable(c: char)
  {
    [c] in Patterns
  }

  /** The pattern of each character of `s`, failing on the first character
      the table lacks. */
  function PatternsOf(s: string): (r: Result<seq<string>>)
    ensures r.Success? <==> forall i | 0 <= i < |s| :: Encodable(s[i])
    ensures r.Success? ==> (|r.value| == |s| &&
              forall i | 0 <= i < |s| :: r.value[i] == Patterns[[s[i]]])
    ensures r.Failure? ==> exists i | 0 <= i < |s| ::
              !Encodable(s[i]) && r.error == UnencodableCharacter(s[i]) &&
              forall j | 0 <= j < i :: Encodable(s[j])
  {
    if s == [] then Success([])
    else if !Encodable(s[0]) then Failure(UnencodableCharacter(s[0]))
    else
      match PatternsOf(s[1..])
      case Failure(e) =>
        assert exists i | 0 <= i < |s| :: !Encodable(s[i]) && e == UnencodableCharacter(s[i]) &&
                 forall j | 0 <= j < i :: Encodable(s[j]) by {
          var k :| 0 <= k < |s[1..]| && !Encodable(s[1..][k]) && e == UnencodableCharacter(s[1..][k]) &&
                   forall j | 0 <= j < k :: Encodable(s[1..][j]);
          assert forall j | 0 <= j < k + 1 :: Encodable(s[j]) by {
            forall j | 0 <= j < k + 1 ensures Encodable(s[j]) {
              if j > 0 { assert s[j] == s[1..][j - 1]; }
            }
          }
          assert s[k + 1] == s[1..][k];
        }
        Failure(e)
      case Success(rest) =>
        assert forall i | 0 <= i < |s| :: Encodable(s[i]) by {
          forall i | 0 <= i < |s| ensures Encodable(s[i]) {
            if i > 0 { assert s[i] == s[1..][i - 1]; }
          }
        }
        Success([Patterns[[s[0]]]] + rest)
  }

  /** `morse_encode`: upper-case the input, then join the patterns of its
      characters with single spaces; the consumed length is the length of
      the input. */
  function Encode(input: string): (r: Result<(string, nat)>)
    ensures r.Success? <==> forall i | 0 <= i < |input| :: Encodable(Upper(input[i]))
    ensures r.Success? ==> r.value.1 == |input|
    ensures r.Failure? ==> exists i | 0 <= i < |input| ::
              !Encodable(Upper(input[i])) && r.error == UnencodableCharacter(Upper(input[i]))
  {
    var up := UpperString(input);
    assert forall i | 0 <= i < |input| :: up[i] == Upper(input[i]);
    match PatternsOf(up)
    case Failure(e) => Failure(e)
    case Success(ps) => Success((Join(ps, " "), |up|))
  }

  /** The rewriting `morse_decode` does before splitting: a double space
      becomes "/", then every "/" becomes " / ". */
  function Rewrite(input: string): (r: string)
    ensures NoSpace(input) && '/' !in input ==> r == input
  {
    var gaps := ReplaceAll(input, "  ", "/");
    assert NoSpace(input) && '/' !in input ==> ReplaceAll(gaps, "/", " / ") == input by {
      if NoSpace(input) && '/' !in input {
        SkipNoSpace(input, []);
        assert input + [] == input;
        ReplaceCharAbsent(input, '/', " / ");
      }
    }
    ReplaceAll(gaps, "/", " / ")
  }

  /** The characters of the tokens, failing on the first token the reverse
      table lacks. */
  function LettersOf(tokens: seq<string>): (r: Result<string>)
    ensures r.Success? <==> forall i | 0 <= i < |tokens| :: tokens[i] in Letters
    ensures r.Success? ==>
              r.value == Flatten(seq(|tokens|, i requires 0 <= i < |tokens| => Letters[tokens[i]]))
    ensures r.Failure? ==> exists i | 0 <= i < |tokens| ::
              tokens[i] !in Letters && r.error == UndecodablePattern(tokens[i])
  {
    if tokens == [] then Success([])
    else if tokens[0] !in Letters then Failure(UndecodablePattern(tokens[0]))
    else
      match LettersOf(tokens[1..])
      case Failure(e) =>
        assert exists i | 0 <= i < |tokens| :: tokens[i] !in Letters && e == UndecodablePattern(tokens[i]) by {
          var k :| 0 <= k < |tokens[1..]| && tokens[1..][k] !in Letters && e == UndecodablePattern(tokens[1..][k]);
          assert tokens[k + 1] == tokens[1..][k];
        }
        Failure(e)
      case Success(rest) =>
        assert forall i | 0 <= i < |tokens| :: tokens[i] in Letters by {
          forall i | 0 <= i < |tokens| ensures tokens[i] in Letters {
            if i > 0 { assert tokens[i] == tokens[1..][i - 1]; }
          }
        }
        var all := seq(|tokens|, i requires 0 <= i < |tokens| => Letters[tokens[i]]);
        assert all[1..] == seq(|tokens[1..]|, i requires 0 <= i < |tokens[1..]| => Letters[tokens[1..][i]]);
        Success(Letters[tokens[0]] + rest)
  }

  /** `morse_decode`: rewrite word separators, split on whitespace and look
      each token up in the reverse table; the consumed length is the length
      of the rewritten string. */
  function Decode(input: string): (r: Result<(string, nat)>)
    ensures r.Success? <==> forall t | t in Words(Rewrite(input)) :: t in Letters
    ensures r.Success? ==> r.value.1 == |Rewrite(input)|
    ensures r.Failure? ==> exists t | t in Words(Rewrite(input)) ::
              t !in Letters && r.error == UndecodablePattern(t)
  {
    var rewritten := Rewrite(input);
    match LettersOf(Words(rewritten))
    case Failure(e) => Failure(e)
    case Success(out) => Success((out, |rewritten|))
  }

  // ---------------------------------------------------------------------
  // Facts about the table

  lemma PatternNonEmpty(c: char)
    requires Encodable(c)
    ensures Patterns[[c]] != []
  {
  }

  lemma PatternNoSpace(c: char)
    requires Encodable(c)
    ensures NoSpace(Patterns[[c]])
  {
  }

  /** The word separator: the space character, and only it, becomes "/". */
  lemma PatternOfSpace(c: char)
    requires Encodable(c)
    ensures Patterns[[c]] == "/" <==> c == ' '
  {
  }

  lemma PatternNoSlash(c: char)
    requires Encodable(c) && c != ' '
    ensures '/' !in Patterns[[c]]
  {
  }

  /** Every character of the table except 'B' is recovered from its
      pattern by the reverse table. */
  lemma PatternInverse(c: char)
    requires Encodable(c) && c != 'B'
    ensures Patterns[[c]] in Letters && Letters[Patterns[[c]]] == [c]
  {
    EncodableChars(c);
    TableFacts();
  }

  /** The characters of the table. */
  lemma EncodableChars(c: char)
    requires Encodable(c)
    ensures c == 'A' || c == 'B' || c == 'C' || c == 'D' || c == 'E' || c == 'F' || c == 'G' || c == 'H' || c == 'I' || c == 'J' || c == 'K' || c == 'L' || c == 'M' || c == 'N' || c == 'O' || c == 'P' || c == 'Q' || c == 'R' || c == 'S' || c == 'T' || c == 'U' || c == 'V' || c == 'W' || c == 'X' || c == 'Y' || c == 'Z' || c == '0' || c == '1' || c == '2' || c == '3' || c == '4' || c == '5' || c == '6' || c == '7' || c == '8' || c == '9' || c == ' ' || c == '.' || c == ',' || c == '?'
  {
  }

  /** The entries of both tables, looked up one key at a time. */
  lemma TableFacts()
    ensures "A" in Patterns && Patterns["A"] == ".-"
    ensures ".-" in Letters && Letters[".-"] == "A"
    ensures "B" in Patterns && Patterns["B"] == "-.."
    ensures "C" in Patterns && Patterns["C"] == "-.-."
    ensures "-.-." in Letters && Letters["-.-."] == "C"
    ensures "D" in Patterns && Patterns["D"] == "-.."
    ensures "-.." in Letters && Letters["-.."] == "D"
    ensures "E" in Patterns && Patterns["E"] == "."
    ensures "." in Letters && Letters["."] == "E"
    ensures "F" in Patterns && Patterns["F"] == "..-."
    ensures "..-." in Letters && Letters["..-."] == "F"
    ensures "G" in Patterns && Patterns["G"] == "--."
    ensures "--." in Letters && Letters["--."] == "G"
    ensures "H" in Patterns && Patterns["H"] == "...."
    ensures "...." in Letters && Letters["...."] == "H"
    ensures "I" in Patterns && Patterns["I"] == ".."
    ensures ".." in Letters && Letters[".."] == "I"
    ensures "J" in Patterns && Patterns["J"] == ".---"
    ensures ".---" in Letters && Letters[".---"] == "J"
    ensures "K" in Patterns && Patterns["K"] == "-.-"
    ensures "-.-" in Letters && Letters["-.-"] == "K"
    ensures "L" in Patterns && Patterns["L"] == ".-.."
    ensures ".-.." in Letters && Letters[".-.."] == "L"
    ensures "M" in Patterns && Patterns["M"] == "--"
    ensures "--" in Letters && Letters["--"] == "M"
    ensures "N" in Patterns && Patterns["N"] == "-."
    ensures "-." in Letters && Letters["-."] == "N"
    ensures "O" in Patterns && Patterns["O"] == "---"
    ensures "---" in Letters && Letters["---"] == "O"
    ensures "P" in Patterns && Patterns["P"] == ".--."
    ensures ".--." in Letters && Letters[".--."] == "P"
    ensures "Q" in Patterns && Patterns["Q"] == "--.-"
    ensures "--.-" in Letters && Letters["--.-"] == "Q"
    ensures "R" in Patterns && Patterns["R"] == ".-."
    ensures ".-." in Letters && Letters[".-."] == "R"
    ensures "S" in Patterns && Patterns["S"] == "..."
    ensures "..." in Letters && Letters["..."] == "S"
    ensures "T" in Patterns && Patterns["T"] == "-"
    ensures "-" in Letters && Letters["-"] == "T"
    ensures "U" in Patterns && Patterns["U"] == "..-"
    ensures "..-" in Letters && Letters["..-"] == "U"
    ensures "V" in Patterns && Patterns["V"] == "...-"
    ensures "...-" in Letters && Letters["...-"] == "V"
    ensures "W" in Patterns && Patterns["W"] == ".--"
    ensures ".--" in Letters && Letters[".--"] == "W"
    ensures "X" in Patterns && Patterns["X"] == "-..-"
    ensures "-..-" in Letters && Letters["-..-"] == "X"
    ensures "Y" in Patterns && Patterns["Y"] == "-.--"
    ensures "-.--" in Letters && Letters["-.--"] == "Y"
    ensures "Z" in Patterns && Patterns["Z"] == "--.."
    ensures "--.." in Letters && Letters["--.."] == "Z"
    ensures "0" in Patterns && Patterns["0"] == "-----"
    ensures "-----" in Letters && Letters["-----"] == "0"
    ensures "1" in Patterns && Patterns["1"] == ".----"
    ensures ".----" in Letters && Letters[".----"] == "1"
    ensures "2" in Patterns && Patterns["2"] == "..---"
    ensures "..---" in Letters && Letters["..---"] == "2"
    ensures "3" in Patterns && Patterns["3"] == "...--"
    ensures "...--" in Letters && Letters["...--"] == "3"
    ensures "4" in Patterns && Patterns["4"] == "....-"
    ensures "....-" in Letters && Letters["....-"] == "4"
    ensures "5" in Patterns && Patterns["5"] == "....."
    ensures "....." in Letters && Letters["....."] == "5"
    ensures "6" in Patterns && Patterns["6"] == "-...."
    ensures "-...." in Letters && Letters["-...."] == "6"
    ensures "7" in Patterns && Patterns["7"] == "--..."
    ensures "--..." in Letters && Letters["--..."] == "7"
    ensures "8" in Patterns && Patterns["8"] == "---.."
    ensures "---.." in Letters && Letters["---.."] == "8"
    ensures "9" in Patterns && Patterns["9"] == "----."
    ensures "----." in Letters && Letters["----."] == "9"
    ensures " " in Patterns && Patterns[" "] == "/"
    ensures "/" in Letters && Letters["/"] == " "
    ensures "." in Patterns && Patterns["."] == ".-.-.-"
    ensures ".-.-.-" in Letters && Letters[".-.-.-"] == "."
    ensures "," in Patterns && Patterns[","] == "--..--"
    ensures "--..--" in Letters && Letters["--..--"] == ","
    ensures "?" in Patterns && Patterns["?"] == "..--.."
    ensures "..--.." in Letters && Letters["..--.."] == "?"
  {
    PatternsAtoE();
    LettersAtoE();
    PatternsFtoH();
    PatternsIJ();
    LettersFtoH();
    LettersIJ();
    PatternsKtoO();
    LettersKtoO();
    PatternsPtoT();
    LettersPtoT();
    PatternsUtoZ();
    LettersUtoZ();
    Patterns0to4();
    Letters0to4();
    Patterns5to9();
    Letters5to9();
    PatternsPunctuation();
    LettersPunctuation();
  }

  lemma PatternsAtoE()
    ensures "A" in Patterns && Patterns["A"] == ".-"
    ensures "B" in Patterns && Patterns["B"] == "-.."
    ensures "C" in Patterns && Patterns["C"] == "-.-."
    ensures "D" in Patterns && Patterns["D"] == "-.."
    ensures "E" in Patterns && Patterns["E"] == "."
  {
  }

  lemma LettersAtoE()
    ensures ".-" in Letters && Letters[".-"] == "A"
    ensures "-.-." in Letters && Letters["-.-."] == "C"
    ensures "-.." in Letters && Letters["-.."] == "D"
    ensures "." in Letters && Letters["."] == "E"
  {
  }

  lemma PatternsFtoH()
    ensures "F" in Patterns && Patterns["F"] == "..-."
    ensures "G" in Patterns && Patterns["G"] == "--."
    ensures "H" in Patterns && Patterns["H"] == "...."
  {
  }

  lemma PatternsIJ()
    ensures "I" in Patterns && Patterns["I"] == ".."
    ensures "J" in Patterns && Patterns["J"] == ".---"
  {
  }

  lemma LettersFtoH()
    ensures "..-." in Letters && Letters["..-."] == "F"
    ensures "--." in Letters && Letters["--."] == "G"
    ensures "...." in Letters && Letters["...."] == "H"
  {
  }

  lemma LettersIJ()
    ensures ".." in Letters && Letters[".."] == "I"
    ensures ".---" in Letters && Letters[".---"] == "J"
  {
  }

  lemma PatternsKtoO()
    ensures "K" in Patterns && Patterns["K"] == "-.-"
    ensures "L" in Patterns && Patterns["L"] == ".-.."
    ensures "M" in Patterns && Patterns["M"] == "--"
    ensures "N" in Patterns && Patterns["N"] == "-."
    ensures "O" in Patterns && Patterns["O"] == "---"
  {
  }

  lemma LettersKtoO()
    ensures "-.-" in Letters && Letters["-.-"] == "K"
    ensures ".-.." in Letters && Letters[".-.."] == "L"
    ensures "--" in Letters && Letters["--"] == "M"
    ensures "-." in Letters && Letters["-."] == "N"
    ensures "---" in Letters && Letters["---"] == "O"
  {
  }

  lemma PatternsPtoT()
    ensures "P" in Patterns && Patterns["P"] == ".--."
    ensures "Q" in Patterns && Patterns["Q"] == "--.-"
    ensures "R" in Patterns && Patterns["R"] == ".-."
    ensures "S" in Patterns && Patterns["S"] == "..."
    ensures "T" in Patterns && Patterns["T"] == "-"
  {
  }

  lemma LettersPtoT()
    ensures ".--." in Letters && Letters[".--."] == "P"
    ensures "--.-" in Letters && Letters["--.-"] == "Q"
    ensures ".-." in Letters && Letters[".-."] == "R"
    ensures "..." in Letters && Letters["..."] == "S"
    ensures "-" in Letters && Letters["-"] == "T"
  {
  }

  lemma PatternsUtoZ()
    ensures "U" in Patterns && Patterns["U"] == "..-"
    ensures "V" in Patterns && Patterns["V"] == "...-"
    ensures "W" in Patterns && Patterns["W"] == ".--"
    ensures "X" in Patterns && Patterns["X"] == "-..-"
    ensures "Y" in Patterns && Patterns["Y"] == "-.--"
    ensures "Z" in Patterns && Patterns["Z"] == "--.."
  {
  }

  lemma LettersUtoZ()
    ensures "..-" in Letters && Letters["..-"] == "U"
    ensures "...-" in Letters && Letters["...-"] == "V"
    ensures ".--" in Letters && Letters[".--"] == "W"
    ensures "-..-" in Letters && Letters["-..-"] == "X"
    ensures "-.--" in Letters && Letters["-.--"] == "Y"
    ensures "--.." in Letters && Letters["--.."] == "Z"
  {
  }

  lemma Patterns0to4()
    ensures "0" in Patterns && Patterns["0"] == "-----"
    ensures "1" in Patterns && Patterns["1"] == ".----"
    ensures "2" in Patterns && Patterns["2"] == "..---"
    ensures "3" in Patterns && Patterns["3"] == "...--"
    ensures "4" in Patterns && Patterns["4"] == "....-"
  {
  }

  lemma Letters0to4()
    ensures "-----" in Letters && Letters["-----"] == "0"
    ensures ".----" in Letters && Letters[".----"] == "1"
    ensures "..---" in Letters && Letters["..---"] == "2"
    ensures "...--" in Letters && Letters["...--"] == "3"
    ensures "....-" in Letters && Letters["....-"] == "4"
  {
  }

  lemma Patterns5to9()
    ensures "5" in Patterns && Patterns["5"] == "....."
    ensures "6" in Patterns && Patterns["6"] == "-...."
    ensures "7" in Patterns && Patterns["7"] == "--..."
    ensures "8" in Patterns && Patterns["8"] == "---.."
    ensures "9" in Patterns && Patterns["9"] == "----."
  {
  }

  lemma Letters5to9()
    ensures "....." in Letters && Letters["....."] == "5"
    ensures "-...." in Letters && Letters["-...."] == "6"
    ensures "--..." in Letters && Letters["--..."] == "7"
    ensures "---.." in Letters && Letters["---.."] == "8"
    ensures "----." in Letters && Letters["----."] == "9"
  {
  }

  lemma PatternsPunctuation()
    ensures " " in Patterns && Patterns[" "] == "/"
    ensures "." in Patterns && Patterns["."] == ".-.-.-"
    ensures "," in Patterns && Patterns[","] == "--..--"
    ensures "?" in Patterns && Patterns["?"] == "..--.."
  {
  }

  lemma LettersPunctuation()
    ensures "/" in Letters && Letters["/"] == " "
    ensures ".-.-.-" in Letters && Letters[".-.-.-"] == "."
    ensures "--..--" in Letters && Letters["--..--"] == ","
    ensures "..--.." in Letters && Letters["..--.."] == "?"
  {
  }

  /** 'B' and 'D' share the pattern "-..", which the reverse table maps
      to 'D'. */
  lemma SharedPattern()
    ensures Encodable('B') && Encodable('D')
    ensures Patterns["B"] == Patterns["D"] == "-.."
    ensures Letters["-.."] == "D"
  {
    PatternsAtoE();
    LettersAtoE();
  }

  // ---------------------------------------------------------------------
  // Splitting the encoder's output back into patterns

  /** The patterns of encodable characters: non-empty, free of whitespace,
      and free of '/' unless they are the separator "/". */
  ghost predicate TokensOk(ps: seq<string>)
  {
    forall i | 0 <= i < |ps| :: ps[i] != [] && NoSpace(ps[i]) && (ps[i] == "/" || '/' !in ps[i])
  }

  lemma {:induction false} PatternsOk(s: string)
    requires forall i | 0 <= i < |s| :: Encodable(s[i])
    ensures TokensOk(PatternsOf(s).value)
  {
    var ps := PatternsOf(s).value;
    forall i | 0 <= i < |ps| ensures ps[i] != [] && NoSpace(ps[i]) && (ps[i] == "/" || '/' !in ps[i]) {
      PatternNonEmpty(s[i]);
      PatternNoSpace(s[i]);
      PatternOfSpace(s[i]);
      if s[i] != ' ' { PatternNoSlash(s[i]); }
    }
  }

  lemma {:induction false} SkipNoSpace(a: string, b: string)
    requires NoSpace(a)
    ensures ReplaceAll(a + b, "  ", "/") == a + ReplaceAll(b, "  ", "/")
  {
    if a == [] {
      assert a + b == b;
    } else if |a + b| < 2 {
      assert b == [] && a + b == a;
    } else {
      assert (a + b)[..2] != "  " by { assert (a + b)[0] == a[0]; }
      assert (a + b)[1..] == a[1..] + b;
      SkipNoSpace(a[1..], b);
    }
  }

  lemma JoinHead(ps: seq<string>, sep: string)
    requires |ps| > 0 && ps[0] != []
    ensures Join(ps, sep) != [] && Join(ps, sep)[0] == ps[0][0]
  {
  }

  /** Patterns joined by single spaces hold no double space. */
  lemma {:induction false} JoinNoDoubleSpace(ps: seq<string>)
    requires TokensOk(ps)
    ensures ReplaceAll(Join(ps, " "), "  ", "/") == Join(ps, " ")
  {
    if |ps| == 1 {
      SkipNoSpace(ps[0], []);
      assert ps[0] + [] == ps[0];
    } else if |ps| > 1 {
      var rest := Join(ps[1..], " ");
      JoinHead(ps[1..], " ");
      assert Join(ps, " ") == ps[0] + ([' '] + rest);
      SkipNoSpace(ps[0], [' '] + rest);
      var b := [' '] + rest;
      assert b[..2] != "  " by { assert b[1] == rest[0] == ps[1][0]; }
      assert b[1..] == rest;
      JoinNoDoubleSpace(ps[1..]);
    }
  }

  /** The word separator "/" as the second rewriting leaves it. */
  function Spaced(p: string): string
  {
    if p == "/" then " / " else p
  }

  function SpacedAll(ps: seq<string>): (qs: seq<string>)
    ensures |qs| == |ps|
  {
    if ps == [] then [] else [Spaced(ps[0])] + SpacedAll(ps[1..])
  }

  lemma SlashReplaced()
    ensures ReplaceAll("/", "/", " / ") == " / "
  {
    var s: string := "/";
    assert s[..1] == "/" && s[1..] == [];
  }

  lemma SpacedReplaced(p: string)
    requires p == "/" || '/' !in p
    ensures ReplaceAll(p, "/", " / ") == Spaced(p)
  {
    if p == "/" { SlashReplaced(); } else { ReplaceCharAbsent(p, '/', " / "); }
  }

  lemma SlashStep(p: string, rest: string)
    requires p == "/" || '/' !in p
    ensures ReplaceAll(p + (" " + rest), "/", " / ") == Spaced(p) + (" " + ReplaceAll(rest, "/", " / "))
  {
    SpacedReplaced(p);
    ReplaceCharConcat(p, " " + rest, '/', " / ");
    ReplaceCharConcat(" ", rest, '/', " / ");
    ReplaceCharAbsent(" ", '/', " / ");
  }

  lemma {:induction false} JoinSlashes(ps: seq<string>)
    requires TokensOk(ps)
    ensures ReplaceAll(Join(ps, " "), "/", " / ") == Join(SpacedAll(ps), " ")
  {
    if |ps| == 1 {
      SpacedReplaced(ps[0]);
      assert SpacedAll(ps) == [Spaced(ps[0])];
    } else if |ps| > 1 {
      assert TokensOk(ps[1..]);
      JoinSlashes(ps[1..]);
      JoinSlashesCons(ps);
    }
  }

  lemma JoinSlashesCons(ps: seq<string>)
    requires |ps| > 1 && (ps[0] == "/" || '/' !in ps[0])
    requires ReplaceAll(Join(ps[1..], " "), "/", " / ") == Join(SpacedAll(ps[1..]), " ")
    ensures ReplaceAll(Join(ps, " "), "/", " / ") == Join(SpacedAll(ps), " ")
  {
    var rest := Join(ps[1..], " ");
    calc {
      ReplaceAll(Join(ps, " "), "/", " / ");
      { JoinCons(ps, " "); }
      ReplaceAll(ps[0] + (" " + rest), "/", " / ");
      { SlashStep(ps[0], rest); }
      Spaced(ps[0]) + (" " + Join(SpacedAll(ps[1..]), " "));
      { SpacedAllCons(ps); JoinCons(SpacedAll(ps), " "); }
      Join(SpacedAll(ps), " ");
    }
  }

  lemma SpacedAllCons(ps: seq<string>)
    requires |ps| > 0
    ensures SpacedAll(ps)[0] == Spaced(ps[0]) && SpacedAll(ps)[1..] == SpacedAll(ps[1..])
  {
  }

  lemma SlashWord()
    ensures Words(" / ") == ["/"]
  {
    var s: string := " / ";
    assert s[1..] == "/" + " ";
    TokenOfNoSpace("/", " ");
    var t: string := "/ ";
    assert t[1..] == " ";
    assert Words(" ") == [];
  }

  lemma {:induction false} WordsOfSpaced(ps: seq<string>)
    requires TokensOk(ps)
    ensures Words(Join(SpacedAll(ps), " ")) == ps
  {
    if ps != [] {
      var qs := SpacedAll(ps);
      assert Words(qs[0]) == [ps[0]] by {
        if ps[0] == "/" { SlashWord(); } else { WordsOfToken(ps[0]); }
      }
      if |ps| > 1 {
        var rest := Join(qs[1..], " ");
        assert Join(qs, " ") == qs[0] + (" " + rest);
        WordsConcat(qs[0], " " + rest);
        assert (" " + rest)[1..] == rest;
        assert qs[1..] == SpacedAll(ps[1..]);
        WordsOfSpaced(ps[1..]);
      }
    }
  }

  /** Splitting the rewritten output of the encoder on whitespace gives
      back the patterns it joined. */
  lemma WordsOfJoined(ps: seq<string>)
    requires TokensOk(ps)
    ensures Rewrite(Join(ps, " ")) == Join(SpacedAll(ps), " ")
    ensures Words(Rewrite(Join(ps, " "))) == ps
  {
    JoinNoDoubleSpace(ps);
    JoinSlashes(ps);
    WordsOfSpaced(ps);
  }

  lemma {:induction false} LettersOfPatterns(s: string)
    requires forall i | 0 <= i < |s| :: Encodable(s[i]) && s[i] != 'B'
    ensures LettersOf(PatternsOf(s).value) == Success(s)
  {
    if s != [] {
      var ps := PatternsOf(s).value;
      PatternInverse(s[0]);
      LettersOfPatterns(s[1..]);
      assert ps == [Patterns[[s[0]]]] + PatternsOf(s[1..]).value;
      LettersOfCons(Patterns[[s[0]]], PatternsOf(s[1..]).value);
      assert [s[0]] + s[1..] == s;
    }
  }

  // ---------------------------------------------------------------------
  // The codec's laws

  /** The encoder's output is the patterns of the upper-cased input, one
      per character, separated by single spaces: splitting it on
      whitespace gives them back. */
  lemma EncodeSplits(x: string)
    requires Encode(x).Success?
    ensures Words(Encode(x).value.0) ==
              seq(|x|, i requires 0 <= i < |x| => Patterns[[Upper(x[i])]])
  {
    var up := UpperString(x);
    var ps := PatternsOf(up).value;
    PatternsOk(up);
    JoinNoDoubleSpace(ps);
    WordsOfJoinedPlain(ps);
  }

  lemma {:induction false} WordsOfJoinedPlain(ps: seq<string>)
    requires TokensOk(ps)
    ensures Words(Join(ps, " ")) == ps
  {
    if ps != [] {
      assert Words(ps[0]) == [ps[0]] by { WordsOfToken(ps[0]); }
      if |ps| > 1 {
        var rest := Join(ps[1..], " ");
        assert Join(ps, " ") == ps[0] + (" " + rest);
        WordsConcat(ps[0], " " + rest);
        assert (" " + rest)[1..] == rest;
        WordsOfJoinedPlain(ps[1..]);
      }
    }
  }

  /** `morse_decode(morse_encode(x)) == x.upper()` for text over the table
      that has no 'B' or 'b'. */
  lemma RoundTrip(x: string)
    requires forall i | 0 <= i < |x| :: Encodable(Upper(x[i])) && Upper(x[i]) != 'B'
    ensures Encode(x).Success?
    ensures Decode(Encode(x).value.0).Success?
    ensures Decode(Encode(x).value.0).value.0 == UpperString(x)
  {
    var up := UpperString(x);
    assert forall i | 0 <= i < |up| :: Encodable(up[i]) && up[i] != 'B';
    var ps := PatternsOf(up).value;
    PatternsOk(up);
    WordsOfJoined(ps);
    LettersOfPatterns(up);
  }

  /** Because of the shared pattern, "B" comes back as "D". */
  lemma BComesBackAsD()
    ensures Encode("B") == Success(("-..", 1))
    ensures Decode("-..") == Success(("D", 3))
  {
    EncodeB();
    DecodeDashDotDot();
  }

  lemma EncodeB()
    ensures Encode("B") == Success(("-..", 1))
  {
    var b: string := "B";
    var p: string := "-..";
    UpperNoLower(b);
    assert Join([p], " ") == p;
    SharedPattern();
    PatternsOfLetter('B');
    EncodeOfPatterns(b, [p]);
  }

  lemma DecodeDashDotDot()
    ensures Decode("-..") == Success(("D", 3))
  {
    var p: string := "-..";
    assert p == ['-', '.', '.'];
    assert NoSpace(p) && '/' !in p;
    SharedPattern();
    DecodeOne(p);
  }

  lemma DecodeOne(p: string)
    requires p != [] && NoSpace(p) && '/' !in p && p in Letters
    ensures Decode(p) == Success((Letters[p], |p|))
  {
    WordsOfToken(p);
    LettersOfOne(p);
    DecodeOfTokens(p, [p], Letters[p], |p|);
  }

  lemma LettersOfCons(t: string, ts: seq<string>)
    requires t in Letters && LettersOf(ts).Success?
    ensures LettersOf([t] + ts) == Success(Letters[t] + LettersOf(ts).value)
  {
    assert ([t] + ts)[0] == t && ([t] + ts)[1..] == ts;
  }

  /** The reverse lookup works token by token: the characters of two runs
      of tokens are the characters of each, in order. */
  lemma {:induction false} LettersOfConcat(a: seq<string>, b: seq<string>)
    requires LettersOf(a).Success? && LettersOf(b).Success?
    ensures LettersOf(a + b) == Success(LettersOf(a).value + LettersOf(b).value)
  {
    if a == [] {
      assert a + b == b;
      assert LettersOf(a).value == [];
      assert [] + LettersOf(b).value == LettersOf(b).value;
    } else {
      assert (a + b)[0] == a[0] && (a + b)[1..] == a[1..] + b;
      LettersOfConcat(a[1..], b);
      var x, y, z := Letters[a[0]], LettersOf(a[1..]).value, LettersOf(b).value;
      assert x + (y + z) == (x + y) + z;
    }
  }

  lemma SlashLetter()
    ensures "/" in Letters && Letters["/"] == " "
  {
  }

  /** A double space between two patterns is a word gap: the rewriting
      turns it into " / ". */
  lemma GapRewrite(p: string, q: string)
    requires NoSpace(p) && '/' !in p && NoSpace(q) && '/' !in q
    ensures Rewrite(p + "  " + q) == p + " / " + q
  {
    var gap: string := "  ";
    var g := gap + q;
    assert p + gap + q == p + g;
    SkipNoSpace(p, g);
    assert g[..2] == gap && g[2..] == q;
    SkipNoSpace(q, []);
    assert q + [] == q;
    var slash: string := "/";
    assert ReplaceAll(p + gap + q, gap, slash) == p + (slash + q);
    ReplaceCharConcat(p, slash + q, '/', " / ");
    ReplaceCharConcat(slash, q, '/', " / ");
    SlashReplaced();
    ReplaceCharAbsent(p, '/', " / ");
    ReplaceCharAbsent(q, '/', " / ");
  }

  /** The rewritten gap splits into the two patterns around the separator. */
  lemma GapWords(p: string, q: string)
    requires p != [] && NoSpace(p) && q != [] && NoSpace(q)
    ensures Words(p + " / " + q) == [p, "/", q]
  {
    var sl: string := " / ";
    assert p + sl + q == p + (sl + q);
    assert (sl + q)[0] == ' ';
    WordsConcat(p, sl + q);
    assert sl[|sl| - 1] == ' ';
    WordsConcat(sl, q);
    WordsOfToken(p);
    WordsOfToken(q);
    SlashWord();
  }

  lemma GapLetters(p: string, q: string)
    requires p in Letters && q in Letters
    ensures LettersOf([p, "/", q]) == Success(Letters[p] + " " + Letters[q])
  {
    SlashLetter();
    LettersOfOne(q);
    LettersOfCons("/", [q]);
    assert ["/"] + [q] == ["/", q];
    LettersOfCons(p, ["/", q]);
    assert [p] + ["/", q] == [p, "/", q];
    var x, y: string := Letters[p], Letters[q];
    assert x + (" " + y) == x + " " + y;
  }

  /** Decoding two patterns separated by a double space gives their
      characters with a space between them; the rewritten length counts
      the gap as three characters. */
  lemma GapDecodes(p: string, q: string)
    requires p != [] && NoSpace(p) && '/' !in p && p in Letters
    requires q != [] && NoSpace(q) && '/' !in q && q in Letters
    ensures Decode(p + "  " + q) == Success((Letters[p] + " " + Letters[q], |p| + 3 + |q|))
  {
    GapLetters(p, q);
    GapDecodesTo(p, q, Letters[p] + " " + Letters[q]);
  }

  lemma GapDecodesTo(p: string, q: string, out: string)
    requires p != [] && NoSpace(p) && '/' !in p
    requires q != [] && NoSpace(q) && '/' !in q
    requires LettersOf([p, "/", q]) == Success(out)
    ensures Decode(p + "  " + q) == Success((out, |p| + 3 + |q|))
  {
    GapTokens(p, q);
    DecodeOfTokens(p + "  " + q, [p, "/", q], out, |p| + 3 + |q|);
  }

  /** The tokens of a rewritten gap, and the rewritten length. */
  lemma GapTokens(p: string, q: string)
    requires p != [] && NoSpace(p) && '/' !in p
    requires q != [] && NoSpace(q) && '/' !in q
    ensures Words(Rewrite(p + "  " + q)) == [p, "/", q]
    ensures |Rewrite(p + "  " + q)| == |p| + 3 + |q|
  {
    GapRewrite(p, q);
    GapWords(p, q);
  }

  /** ".  ." is "E", a word gap, and "E" again. */
  lemma DoubleSpaceIsGap()
    ensures Decode(".  .") == Success(("E E", 5))
  {
    var e: string := ".";
    assert NoSpace(e) && '/' !in e;
    LettersAtoE();
    GapDecodes(e, e);
    DoubleSpaceLiterals();
  }

  lemma DoubleSpaceLiterals()
    ensures "." + "  " + "." == ".  ."
    ensures "E" + " " + "E" == "E E"
  {
  }

  lemma LettersOfOne(t: string)
    requires t in Letters
    ensures LettersOf([t]) == Success(Letters[t])
  {
    var ts := [t];
    assert ts[1..] == [];
    assert Letters[t] + [] == Letters[t];
  }

  /** The decoder's result from the tokens of the rewritten input and the
      characters they stand for. */
  lemma DecodeOfTokens(input: string, tokens: seq<string>, out: string, n: nat)
    requires Words(Rewrite(input)) == tokens && LettersOf(tokens) == Success(out)
    requires |Rewrite(input)| == n
    ensures Decode(input) == Success((out, n))
  {
  }

  lemma PatternsOfLetter(c: char)
    requires Encodable(c)
    ensures PatternsOf([c]) == Success([Patterns[[c]]])
  {
    var s := [c];
    assert s[0] == c && s[1..] == [];
    assert PatternsOf(s[1..]) == Success([]);
    assert [Patterns[[c]]] + [] == [Patterns[[c]]];
  }

  lemma PatternsOfCons(c: char, s: string)
    requires Encodable(c) && PatternsOf(s).Success?
    ensures PatternsOf([c] + s) == Success([Patterns[[c]]] + PatternsOf(s).value)
  {
    var t := [c] + s;
    assert t[0] == c && t[1..] == s;
  }

  lemma PatternsOfThree(a: char, b: char, c: char)
    requires Encodable(a) && Encodable(b) && Encodable(c)
    ensures PatternsOf([a, b, c]) == Success([Patterns[[a]], Patterns[[b]], Patterns[[c]]])
  {
    PatternsOfLetter(c);
    PatternsOfCons(b, [c]);
    assert [b] + [c] == [b, c];
    PatternsOfCons(a, [b, c]);
    assert [a] + [b, c] == [a, b, c];
    var pa, pb, pc := Patterns[[a]], Patterns[[b]], Patterns[[c]];
    assert [pa] + ([pb] + [pc]) == [pa, pb, pc];
  }

  lemma UpperSos()
    ensures UpperString("sos") == "SOS"
    ensures UpperString("SOS") == "SOS"
  {
  }

  /** Text without lower-case letters is its own upper case. */
  lemma UpperNoLower(s: string)
    requires forall i | 0 <= i < |s| :: !('a' <= s[i] <= 'z')
    ensures UpperString(s) == s
  {
  }

  lemma EncodeOfPatterns(x: string, ps: seq<string>)
    requires PatternsOf(UpperString(x)) == Success(ps)
    ensures Encode(x) == Success((Join(ps, " "), |x|))
  {
  }

  /** "SOS" (in either case) encodes to "... --- ..." and consumes three
      characters. */
  lemma EncodeSos()
    ensures Encode("SOS") == Success(("... --- ...", 3))
    ensures Encode("sos") == Success(("... --- ...", 3))
  {
    var up: string := "SOS";
    var sos: string := "sos";
    UpperSos();
    SosPatterns();
    EncodeOfPatterns(up, ["...", "---", "..."]);
    EncodeOfPatterns(sos, ["...", "---", "..."]);
  }

  lemma SosPatterns()
    ensures PatternsOf("SOS") == Success(["...", "---", "..."])
    ensures Join(["...", "---", "..."], " ") == "... --- ..."
  {
    var up: string := "SOS";
    assert up == ['S', 'O', 'S'];
    PatternsKtoO();
    PatternsPtoT();
    PatternsOfThree('S', 'O', 'S');
    SosJoin();
  }

  lemma SosJoin()
    ensures Join(["...", "---", "..."], " ") == "... --- ..."
  {
    var d: string, m: string := "...", "---";
    JoinThree(d, m, d, " ");
    assert d + " " == "... ";
    assert "... " + m == "... ---";
    assert "... ---" + " " == "... --- ";
    assert "... --- " + d == "... --- ...";
  }

  /** A space in the text becomes the separator "/" between the
      neighbouring patterns; decoding turns it back into a space, and the
      consumed length counts the rewritten ".  /  .". */
  lemma SpaceIsSlash()
    ensures Encode("E E") == Success((". / .", 3))
    ensures Decode(". / .") == Success(("E E", 7))
  {
    EncodeEspaceE();
    DecodeEspaceE();
    RewriteEspaceE();
  }

  lemma DecodeEspaceE()
    ensures Decode(". / .").Success? && Decode(". / .").value.0 == "E E"
  {
    var x: string := "E E";
    assert x[0] == 'E' && x[1] == ' ' && x[2] == 'E';
    UpperNoLower(x);
    PatternsAtoE();
    PatternsPunctuation();
    assert Upper('E') == 'E' && Upper(' ') == ' ';
    assert forall i | 0 <= i < |x| :: Encodable(Upper(x[i])) && Upper(x[i]) != 'B' by {
      forall i | 0 <= i < |x|
        ensures Encodable(Upper(x[i])) && Upper(x[i]) != 'B'
      {
        assert x[i] == 'E' || x[i] == ' ';
      }
    }
    EncodeEspaceE();
    RoundTrip(x);
  }

  lemma EncodeEspaceE()
    ensures Encode("E E") == Success((". / .", 3))
  {
    var x: string := "E E";
    assert x == ['E', ' ', 'E'];
    UpperNoLower(x);
    PatternsAtoE();
    PatternsPunctuation();
    PatternsOfThree('E', ' ', 'E');
    EspaceEJoins();
    EncodeOfPatterns(x, [".", "/", "."]);
  }

  lemma RewriteEspaceE()
    ensures |Rewrite(". / .")| == 7
  {
    var ps: seq<string> := [".", "/", "."];
    EspaceETokens();
    EspaceEJoins();
    JoinNoDoubleSpace(ps);
    JoinSlashes(ps);
  }

  lemma EspaceETokens()
    ensures TokensOk([".", "/", "."])
    ensures SpacedAll([".", "/", "."]) == [".", " / ", "."]
  {
    var ps: seq<string> := [".", "/", "."];
    assert TokensOk(ps);
    assert SpacedAll(ps) == [".", " / ", "."];
  }

  lemma EspaceEJoins()
    ensures Join([".", "/", "."], " ") == ". / ."
    ensures |Join([".", " / ", "."], " ")| == 7
  {
    JoinThree(".", "/", ".", " ");
    JoinThree(".", " / ", ".", " ");
    var e: string := ". / .";
    assert "." + " " + "/" + " " + "." == e;
  }
}
