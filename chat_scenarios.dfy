/**
 * Worked exchanges of the chat bean on concrete questions.
 */
module ChatScenarios {
  import opened Wrappers
  import opened JavaText
  import opened Chat

  lemma ReverseTwo(a: char, b: char)
    ensures Reverse([a, b]) == [b, a]
  {
    assert [a, b][1..] == [b];
  }

  lemma ReverseFive(a: char, b: char, c: char, d: char, e: char)
    ensures Reverse([a, b, c, d, e]) == [e, d, c, b, a]
  {
    var r := Reverse([a, b, c, d, e]);
    assert r[0] == e && r[1] == d && r[2] == c && r[3] == b && r[4] == a;
  }

  lemma ReverseSeven(a: char, b: char, c: char, d: char, e: char, f: char, g: char)
    ensures Reverse([a, b, c, d, e, f, g]) == [g, f, e, d, c, b, a]
  {
    var r := Reverse([a, b, c, d, e, f, g]);
    assert r[0] == g && r[1] == f && r[2] == e && r[3] == d && r[4] == c && r[5] == b && r[6] == a;
  }

  lemma SplitBonjour()
    ensures Split("bonjour le monde") == ["bonjour", "le", "monde"]
  {
    var ws := ["bonjour", "le", "monde"];
    assert Join(ws) == "bonjour le monde";
    SplitJoin(ws);
  }

  lemma ReversedBonjour()
    ensures Join(ReverseAll(["bonjour", "le", "monde"])) == "ruojnob" + " " + ("el" + " " + "ednom")
  {
    ReverseSeven('b', 'o', 'n', 'j', 'o', 'u', 'r');
    ReverseTwo('l', 'e');
    ReverseFive('m', 'o', 'n', 'd', 'e');
    var ws := ["bonjour", "le", "monde"];
    assert ReverseAll(ws) == ["ruojnob", "el", "ednom"];
  }

  /** Both questions of the session are non-blank and have no control
      character. */
  lemma PlainQuestions()
    ensures !IsBlank("bonjour le monde") && NoControl("bonjour le monde")
    ensures !IsBlank("ça va") && NoControl("ça va")
  {
    var q, q' := "bonjour le monde", "ça va";
    assert !IsWhitespace(q[0]);
    assert !IsWhitespace(q'[0]);
  }

  /** The first answer to "bonjour le monde": the banner, then each word
      reversed in its place. */
  lemma AnswerBonjour(banner: string)
    ensures Answer(banner, "bonjour le monde")
            == "||" + banner + ("ruojnob" + " " + ("el" + " " + "ednom")) + "||"
  {
    PlainQuestions();
    AnswerOfPlainQuestion(banner, "bonjour le monde");
    SplitBonjour();
    ReversedBonjour();
  }

  lemma SplitCaVa()
    ensures Split("ça va") == ["ça", "va"]
  {
    var ws := ["ça", "va"];
    assert Join(ws) == "ça va";
    SplitJoin(ws);
  }

  lemma ReversedCaVa()
    ensures Join(ReverseAll(["ça", "va"])) == "aç" + " " + "av"
  {
    ReverseTwo('ç', 'a');
    ReverseTwo('v', 'a');
    var ws := ["ça", "va"];
    assert ReverseAll(ws) == ["aç", "av"];
  }

  /** A later answer to "ça va": no banner, each word reversed. */
  lemma AnswerCaVa()
    ensures Answer([], "ça va") == "||" + [] + ("aç" + " " + "av") + "||"
  {
    PlainQuestions();
    AnswerOfPlainQuestion([], "ça va");
    SplitCaVa();
    ReversedCaVa();
  }

  lemma BlankSpaces()
    ensures IsBlank("   ")
  {
  }

  /** A fresh bean, a role picked on the page, then two questions and a blank
      one: the first answer carries the role's banner, the second does not,
      the blank question is turned down, and the role stays locked. */
  method Session(role: string) returns (first: Option<string>, second: Option<string>, third: Outcome)
    ensures first == Some("||" + Banner(role) + ("ruojnob" + " " + ("el" + " " + "ednom")) + "||")
    ensures second == Some("||" + [] + ("aç" + " " + "av") + "||")
    ensures third == EmptyQuestion
  {
    var chat := new ChatBDAHA();
    chat.SetSystemRole(Some(role));
    first := AskBonjour(chat, role, "bonjour le monde");
    second := AskCaVa(chat);
    third := AskBlank(chat);
  }

  /** The first question of a conversation. */
  method AskBonjour(chat: ChatBDAHA, role: string, question: string) returns (answer: Option<string>)
    requires question == "bonjour le monde"
    requires chat.conversation == [] && chat.systemRole == Some(role)
    modifies chat
    ensures answer == chat.reponse
    ensures answer == Some("||" + Banner(role) + ("ruojnob" + " " + ("el" + " " + "ednom")) + "||")
    ensures chat.conversation != [] && !chat.systemRoleChangeable
  {
    chat.SetQuestion(Some(question));
    PlainQuestions();
    var outcome := chat.Envoyer();
    assert outcome == Answered;
    assert chat.reponse == Some(Answer(Banner(role), question));
    AnswerBonjour(Banner(role));
    answer := chat.reponse;
  }

  /** A later question: no banner, and the role stays locked. */
  method AskCaVa(chat: ChatBDAHA) returns (answer: Option<string>)
    requires chat.conversation != [] && !chat.systemRoleChangeable
    modifies chat
    ensures answer == chat.reponse
    ensures answer == Some("||" + [] + ("aç" + " " + "av") + "||")
    ensures chat.conversation != [] && !chat.systemRoleChangeable
  {
    chat.SetQuestion(Some("ça va"));
    PlainQuestions();
    var outcome := chat.Envoyer();
    assert outcome == Answered;
    assert chat.reponse == Some(Answer([], "ça va"));
    AnswerCaVa();
    answer := chat.reponse;
  }

  /** A question of spaces only is turned down and changes nothing. */
  method AskBlank(chat: ChatBDAHA) returns (outcome: Outcome)
    modifies chat
    ensures outcome == EmptyQuestion
    ensures chat.reponse == old(chat.reponse) && chat.conversation == old(chat.conversation)
    ensures chat.systemRoleChangeable == old(chat.systemRoleChangeable)
  {
    chat.SetQuestion(Some("   "));
    BlankSpaces();
    outcome := chat.Envoyer();
  }

  /** `toggleDebug` twice gives back the flag. */
  method ToggleTwice(chat: ChatBDAHA)
    modifies chat
    ensures chat.debug == old(chat.debug)
  {
    chat.ToggleDebug();
    chat.ToggleDebug();
  }
}
