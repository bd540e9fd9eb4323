/**
 * The conversation backing bean `ChatBDAHA` of the chat page: it keeps the
 * chosen system role, whether the role may still be changed, the last
 * question and answer, and the transcript of the conversation. Until a
 * language model answers, `envoyer` answers with the question's words each
 * reversed, between "||" markers, the upper-cased system role put in front of
 * the first answer.
 */
module Chat {
  import opened Wrappers
  import opened JavaText

  /** An entry of the role drop-down: the value submitted and the caption shown. */
  datatype SelectItem = SelectItem(value: string, caption: string)

  /** How a call of `envoyer` ends. `Answered` and `EmptyQuestion` both return
      null (the page stays); `NullRole` is the NullPointerException raised by
      `systemRole.toUpperCase` when the first exchange starts while no role has
      been set. */
  datatype Outcome = Answered | EmptyQuestion | NullRole

  // The three role texts of the catalogue, as the text blocks give them: each
  // line ends with a line break, the last one included.

  const AssistantRole: string :=
    "You are a helpful assistant. You help the user to find the information they need.\n"
    + "If the user type a question, you answer it.\n"

  const TranslatorRole: string :=
    "You are an interpreter. You translate from English to French and from French to English.\n"
    + "If the user type a French text, you translate it into English.\n"
    + "If the user type an English text, you translate it into French.\n"
    + "If the text contains only one to three words, give some examples of usage of these words in English.\n"

  const GuideRole: string :=
    "Your are a travel guide. If the user type the name of a country or of a town,\n"
    + "you tell them what are the main places to visit in the country or the town\n"
    + "are you tell them the average price of a meal.\n"

  /** The line put in front of the first answer: the role, upper-cased. */
  function Banner(role: string): (b: string)
  {
    Upper(role) + "\n"
  }

  /** What the loop of `envoyer` appends: each word reversed, then a space. */
  function Body(words: seq<string>): (text: string)
  {
    if words == [] then []
    else Body(words[..|words| - 1]) + Reverse(words[|words| - 1]) + " "
  }

  /** Each word reversed, in the original order. */
  function ReverseAll(words: seq<string>): (rs: seq<string>)
  {
    seq(|words|, i requires 0 <= i < |words| => Reverse(words[i]))
  }

  /** The words separated by single spaces. */
  function Join(words: seq<string>): (text: string)
  {
    if words == [] then []
    else if |words| == 1 then words[0]
    else words[0] + " " + Join(words[1..])
  }

  /** The answer `envoyer` gives to `question`, `banner` being the banner line
      (empty after the first exchange): "||", the banner and the reversed words,
      trimmed, then "||". */
  function Answer(banner: string, question: string): (a: string)
  {
    Trim("||" + banner + Body(Split(question))) + "||"
  }

  /** The block `afficherConversation` appends to the transcript. */
  function Exchange(question: Option<string>, reponse: Option<string>): (block: string)
  {
    "== User:\n" + Str(question) + "\n== Serveur:\n" + Str(reponse) + "\n"
  }

  /** The question holds no control character other than those `\s` matches,
      so that no character of a word is removed by `trim`. */
  predicate NoControl(q: string)
  {
    forall i :: 0 <= i < |q| ==> q[i] > ' ' || IsRegexSpace(q[i])
  }

  // ------------------------------------------------------------ the answer

  lemma {:induction false} JoinSnoc(ws: seq<string>, w: string)
    ensures Join(ws + [w]) == if ws == [] then w else Join(ws) + " " + w
    decreases |ws|
  {
    if |ws| > 1 {
      assert (ws + [w])[1..] == ws[1..] + [w];
      JoinSnoc(ws[1..], w);
    } else if |ws| == 1 {
      assert (ws + [w])[1..] == [w];
    }
  }

  lemma ReverseAllSnoc(ws: seq<string>)
    requires ws != []
    ensures ReverseAll(ws) == ReverseAll(ws[..|ws| - 1]) + [Reverse(ws[|ws| - 1])]
  {
    var a, b := ReverseAll(ws), ReverseAll(ws[..|ws| - 1]) + [Reverse(ws[|ws| - 1])];
    assert |a| == |b|;
    forall i | 0 <= i < |a|
      ensures a[i] == b[i]
    {
      if i < |ws| - 1 {
        assert b[i] == ReverseAll(ws[..|ws| - 1])[i];
      }
    }
  }

  /** The loop's text is the reversed words joined by single spaces, with one
      space more at the end (the one `trim` takes off). */
  lemma {:induction false} BodyIsJoined(ws: seq<string>)
    ensures Body(ws) == if ws == [] then [] else Join(ReverseAll(ws)) + " "
    decreases |ws|
  {
    if ws != [] {
      var init, last := ws[..|ws| - 1], Reverse(ws[|ws| - 1]);
      assert Body(ws) == Body(init) + last + " ";
      BodyIsJoined(init);
      ReverseAllSnoc(ws);
      JoinSnoc(ReverseAll(init), last);
      if init == [] {
        assert Body(init) + last + " " == last + " ";
      } else {
        var j := Join(ReverseAll(init));
        assert (j + " ") + last + " " == (j + " " + last) + " ";
      }
    }
  }

  /** `split("\\s+")` undoes the joining of non-empty words free of `\s`. */
  lemma {:induction false} SplitJoin(ws: seq<string>)
    requires ws != []
    requires forall i :: 0 <= i < |ws| ==> ws[i] != [] && NoRegexSpace(ws[i])
    ensures Split(Join(ws)) == ws
  {
    PiecesJoin(ws);
    if |ws| == 1 {
      assert !HasRegexSpace(Join(ws));
    } else {
      var w := ws[0];
      assert Join(ws)[|w|] == ' ';
    }
  }

  lemma {:induction false} PiecesJoin(ws: seq<string>)
    requires ws != []
    requires forall i :: 0 <= i < |ws| ==> ws[i] != [] && NoRegexSpace(ws[i])
    ensures Pieces(Join(ws)) == ws
    decreases |ws|
  {
    if |ws| == 1 {
      PiecesOfWord(ws[0]);
    } else {
      var tail := ws[1..];
      assert forall i :: 0 <= i < |tail| ==> tail[i] == ws[i + 1];
      PiecesJoin(tail);
      var rest := Join(tail);
      assert Join(ws) == ws[0] + " " + rest;
      JoinStart(tail);
      assert !IsRegexSpace(rest[0]) by {
        assert rest[0] == tail[0][0];
      }
      PiecesOfSpaced(ws[0], rest);
      assert ws == [ws[0]] + tail;
    }
  }

  /** Joined non-empty words start with the first word's first character. */
  lemma JoinStart(ws: seq<string>)
    requires ws != [] && ws[0] != []
    ensures Join(ws) != [] && Join(ws)[0] == ws[0][0]
  {
  }

  /** The answer is "||", then the banner and the reversed words joined by single
      spaces with the characters at most ' ' at its end removed, then "||". */
  lemma AnswerShape(banner: string, question: string)
    ensures Answer(banner, question)
            == "||" + TrimEnd(banner + Join(ReverseAll(Split(question)))) + "||"
  {
    var words := Split(question);
    var joined := Join(ReverseAll(words));
    BodyIsJoined(words);
    if words == [] {
      assert banner + Body(words) == banner + joined;
    } else {
      assert banner + Body(words) == (banner + joined) + " ";
      TrimEndDropsTail(banner + joined, " ");
    }
    assert "||" + banner + Body(words) == "||" + (banner + Body(words));
    TrimAnchored("||" + banner + Body(words));
    TrimEndKeepsPrefix("||", banner + Body(words));
  }

  /** Every answer starts with "||" and ends with "||". */
  lemma AnswerFramed(banner: string, question: string)
    ensures |Answer(banner, question)| >= 4
    ensures Answer(banner, question)[..2] == "||"
    ensures Answer(banner, question)[|Answer(banner, question)| - 2..] == "||"
  {
    AnswerShape(banner, question);
  }

  lemma ReverseAllTail(ws: seq<string>)
    requires ws != []
    ensures ReverseAll(ws)[0] == Reverse(ws[0])
    ensures ReverseAll(ws)[1..] == ReverseAll(ws[1..])
  {
    var a, b := ReverseAll(ws)[1..], ReverseAll(ws[1..]);
    assert |a| == |b|;
    forall i | 0 <= i < |a|
      ensures a[i] == b[i]
    {
      assert a[i] == ReverseAll(ws)[i + 1];
    }
  }

  lemma ConsKeepsCharacters(rw: string, w: string, x: string, y: string)
    requires multiset(rw) == multiset(w) && multiset(x) == multiset(y)
    ensures multiset(rw + x) == multiset(w + y)
  {
  }

  lemma JoinReversedCons(ws: seq<string>)
    requires |ws| > 1
    ensures Join(ReverseAll(ws)) == Reverse(ws[0]) + " " + Join(ReverseAll(ws[1..]))
  {
    ReverseAllTail(ws);
  }

  lemma NonSpaceOfSpaced(w: string, rest: string)
    requires NoRegexSpace(w)
    ensures NonSpace(w + " " + rest) == w + NonSpace(rest)
  {
    var space := NonSpace(" ");
    assert space == [] by {
      assert " "[1..] == [];
    }
    NonSpaceOfWord(w);
    NonSpaceAppend(w, " ");
    assert NonSpace(w + " ") == w + space;
    assert w + space == w;
    NonSpaceAppend(w + " ", rest);
  }

  lemma {:induction false} ReversedWordsKeepCharacters(ws: seq<string>)
    requires forall i :: 0 <= i < |ws| ==> NoRegexSpace(ws[i])
    ensures multiset(NonSpace(Join(ReverseAll(ws)))) == multiset(Concat(ws))
    decreases |ws|
  {
    if ws != [] {
      var w, tail := ws[0], ws[1..];
      var rw := Reverse(w);
      ReverseKeepsCharacters(w);
      assert Concat(ws) == w + Concat(tail);
      var x := NonSpace(Join(ReverseAll(tail)));
      if tail == [] {
        ReverseAllTail(ws);
        NonSpaceOfWord(rw);
        assert Join(ReverseAll(ws)) == rw;
      } else {
        JoinReversedCons(ws);
        NonSpaceOfSpaced(rw, Join(ReverseAll(tail)));
      }
      assert NonSpace(Join(ReverseAll(ws))) == rw + x;
      assert multiset(x) == multiset(Concat(tail)) by {
        forall i | 0 <= i < |tail|
          ensures NoRegexSpace(tail[i])
        {
          assert tail[i] == ws[i + 1];
        }
        ReversedWordsKeepCharacters(tail);
      }
      ConsKeepsCharacters(rw, w, x, Concat(tail));
    }
  }

  /** The reversed words hold exactly the question's characters other than
      `\s`, each as many times: the answer only moves characters. */
  lemma AnswerKeepsCharacters(question: string)
    ensures multiset(NonSpace(Join(ReverseAll(Split(question))))) == multiset(NonSpace(question))
  {
    SplitShape(question);
    ReversedWordsKeepCharacters(Split(question));
  }

  /** A character of the reversed words is a space or a character of the question. */
  lemma JoinedCharacter(question: string, c: char)
    requires c in Join(ReverseAll(Split(question)))
    ensures IsRegexSpace(c) || c in question
  {
    var joined := Join(ReverseAll(Split(question)));
    if !IsRegexSpace(c) {
      NonSpaceMembers(joined, c);
      AnswerKeepsCharacters(question);
      assert c in multiset(NonSpace(question));
      NonSpaceMembers(question, c);
    }
  }

  /** A character of the question other than `\s` is in the reversed words. */
  lemma QuestionCharacter(question: string, c: char)
    requires c in question && !IsRegexSpace(c)
    ensures c in Join(ReverseAll(Split(question)))
  {
    var joined := Join(ReverseAll(Split(question)));
    NonSpaceMembers(question, c);
    AnswerKeepsCharacters(question);
    assert c in multiset(NonSpace(joined));
    NonSpaceMembers(joined, c);
  }

  lemma PrefixThrough(a: string, b: string, c: string, d: string)
    ensures a + b <= a + (b + c) + d
  {
    assert a + (b + c) + d == (a + b) + (c + d);
  }

  /** When the question holds a character above ' ', the banner stays whole at
      the head of the first answer: "||", the upper-cased role, a line break. */
  lemma AnswerWithBanner(role: string, question: string)
    requires exists i :: 0 <= i < |question| && question[i] > ' '
    ensures Answer(Banner(role), question)
            == "||" + (Banner(role) + TrimEnd(Join(ReverseAll(Split(question))))) + "||"
    ensures "||" + Banner(role) <= Answer(Banner(role), question)
  {
    var joined := Join(ReverseAll(Split(question)));
    var i :| 0 <= i < |question| && question[i] > ' ';
    QuestionCharacter(question, question[i]);
    var j :| 0 <= j < |joined| && joined[j] == question[i];
    TrimEndKeepsVisible(joined, j);
    AnswerShape(Banner(role), question);
    TrimEndKeepsPrefix(Banner(role), joined);
    PrefixThrough("||", Banner(role), TrimEnd(joined), "||");
  }

  /** A question whose characters are all at most ' ' (but not all whitespace,
      say U+0001) loses its whole body to `trim`, and with it the line break
      of the banner: the first answer is "||", then the upper-cased role with
      its own trailing line breaks removed, then "||". */
  lemma AnswerWithoutVisibleCharacter(role: string, question: string)
    requires forall i :: 0 <= i < |question| ==> question[i] <= ' '
    ensures Answer(Banner(role), question) == "||" + TrimEnd(Upper(role)) + "||"
    ensures Answer([], question) == "||||"
  {
    assert "||" + [] + "||" == "||||";
    var joined := Join(ReverseAll(Split(question)));
    assert forall k :: 0 <= k < |joined| ==> joined[k] <= ' ' by {
      forall k | 0 <= k < |joined|
        ensures joined[k] <= ' '
      {
        JoinedCharacter(question, joined[k]);
        RegexSpaceIsWhitespace(joined[k]);
      }
    }
    AnswerShape(Banner(role), question);
    TrimEndDropsTail(Banner(role), joined);
    TrimEndDropsTail(Upper(role), "\n");
    AnswerShape([], question);
    assert [] + joined == [] + joined;
    TrimEndDropsTail([], joined);
  }

  /** The joined words end with the last word. */
  lemma JoinLastCharacter(ws: seq<string>)
    requires ws != [] && ws[|ws| - 1] != []
    ensures |Join(ws)| > 0
    ensures Join(ws)[|Join(ws)| - 1] == ws[|ws| - 1][|ws[|ws| - 1]| - 1]
  {
    var init, last := ws[..|ws| - 1], ws[|ws| - 1];
    assert ws == init + [last];
    JoinSnoc(init, last);
  }

  /** For a question without other control characters, nothing of the words is
      trimmed: the answer is "||", the banner, the reversed words joined by
      single spaces, "||". */
  lemma AnswerOfPlainQuestion(banner: string, question: string)
    requires !IsBlank(question) && NoControl(question)
    ensures Answer(banner, question) == "||" + banner + Join(ReverseAll(Split(question))) + "||"
  {
    var joined := Join(ReverseAll(Split(question)));
    JoinedEndsVisible(question);
    EndsVisible(banner, joined);
    AnswerShape(banner, question);
  }

  /** A space before a single word is kept: the leading empty token reverses
      to nothing and its space stays after "||" and the banner. */
  lemma AnswerOfLeadingSpace(banner: string, w: string)
    requires w != [] && NoRegexSpace(w) && w[0] > ' '
    ensures Answer(banner, " " + w) == "||" + (banner + (" " + Reverse(w))) + "||"
  {
    SplitLeadingSpace(w);
    var joined := Join(ReverseAll(Split(" " + w)));
    JoinLeadingEmpty(w);
    EndsVisible(banner, joined);
    AnswerShape(banner, " " + w);
  }

  lemma JoinLeadingEmpty(w: string)
    requires w != []
    ensures var joined := Join(ReverseAll(["", w]));
            joined == " " + Reverse(w) && joined[|joined| - 1] == w[0]
  {
    var rs := ReverseAll(["", w]);
    assert rs == [[]] + [Reverse(w)];
    JoinSnoc([[]], Reverse(w));
    assert [] + " " + Reverse(w) == " " + Reverse(w);
  }

  /** The last word of a question without control characters starts with a
      character above ' ', and reversed it ends the joined words. */
  lemma JoinedEndsVisible(question: string)
    requires !IsBlank(question) && NoControl(question)
    ensures var joined := Join(ReverseAll(Split(question)));
            joined != [] && joined[|joined| - 1] > ' '
  {
    var words := Split(question);
    assert words != [] && words[|words| - 1] != [] && Concat(words) == NonSpace(question) by {
      SplitShape(question);
    }
    var last := words[|words| - 1];
    assert last[0] > ' ' by {
      ConcatMember(words, |words| - 1);
      NonSpaceMembers(question, last[0]);
    }
    var reversed := ReverseAll(words);
    assert reversed[|reversed| - 1] == Reverse(last);
    JoinLastCharacter(reversed);
  }

  /** `trim` leaves the end of a string alone when its last character is above ' '. */
  lemma EndsVisible(banner: string, joined: string)
    requires joined != [] && joined[|joined| - 1] > ' '
    ensures TrimEnd(banner + joined) == banner + joined
  {
    var x := banner + joined;
    assert x[|x| - 1] == joined[|joined| - 1];
    TrimEndUnique(x, |x|);
    assert x[..|x|] == x;
  }

  // ------------------------------------------------------------ the bean

  class ChatBDAHA {
    /** The system role; null until `getSystemRoles` or the setter gives one. */
    var systemRole: Option<string>
    /** Whether the page still lets the user pick the role. */
    var systemRoleChangeable: bool
    var question: Option<string>
    var reponse: Option<string>
    /** The transcript since the start of the conversation. */
    var conversation: string
    var texteReponseJson: Option<string>
    var texteRequeteJson: Option<string>
    var debug: bool
    /** Whether an error message has been added to the faces context. */
    var errorReported: bool

    /** The role is locked exactly when the transcript is not empty. Every
        operation keeps this, except `setConversation` given an empty text
        once the role is locked, or a non-empty one before. */
    ghost predicate Valid()
      reads this
    {
      systemRoleChangeable <==> conversation == []
    }

    /** `envoyer` turns the question down. */
    predicate QuestionMissing()
      reads this
    {
      question.None? || IsBlank(question.value)
    }

    constructor ()
      ensures Valid()
      ensures systemRole == None && systemRoleChangeable
      ensures question == None && reponse == None && conversation == []
      ensures texteReponseJson == None && texteRequeteJson == None
      ensures !debug && !errorReported
    {
      systemRole := None;
      systemRoleChangeable := true;
      question := None;
      reponse := None;
      conversation := [];
      texteReponseJson := None;
      texteRequeteJson := None;
      debug := false;
      errorReported := false;
    }

    method SetDebug(debug: bool)
      modifies this`debug
      ensures this.debug == debug
    {
      this.debug := debug;
    }

    method ToggleDebug()
      modifies this`debug
      ensures debug == !old(debug)
    {
      SetDebug(!debug);
    }

    /** The setter does not look at `systemRoleChangeable`: only the page
        keeps a locked role from changing. */
    method SetSystemRole(systemRole: Option<string>)
      modifies this`systemRole
      ensures this.systemRole == systemRole
    {
      this.systemRole := systemRole;
    }

    method SetQuestion(question: Option<string>)
      modifies this`question
      ensures this.question == question
    {
      this.question := question;
    }

    method SetReponse(reponse: Option<string>)
      modifies this`reponse
      ensures this.reponse == reponse
    {
      this.reponse := reponse;
    }

    method SetConversation(conversation: string)
      modifies this`conversation
      ensures this.conversation == conversation
    {
      this.conversation := conversation;
    }

    /** Sends the question. A missing or blank question is reported and
        changes nothing else. Otherwise the answer is computed, the role is
        locked if this is the first exchange, and the exchange is appended to
        the transcript. */
    method Envoyer() returns (outcome: Outcome)
      modifies this`reponse, this`systemRoleChangeable, this`conversation, this`errorReported
      ensures outcome == EmptyQuestion <==> QuestionMissing()
      ensures outcome == NullRole <==>
                !QuestionMissing() && old(conversation) == [] && systemRole.None?
      ensures errorReported == (old(errorReported) || outcome == EmptyQuestion)
      ensures outcome != Answered ==>
                reponse == old(reponse) && conversation == old(conversation)
                && systemRoleChangeable == old(systemRoleChangeable)
      ensures outcome == Answered && old(conversation) == [] ==>
                reponse == Some(Answer(Banner(systemRole.value), question.value))
      ensures outcome == Answered && old(conversation) != [] ==>
                reponse == Some(Answer([], question.value))
      ensures outcome == Answered ==>
                conversation == old(conversation) + Exchange(question, reponse)
                && old(conversation) < conversation
                && systemRoleChangeable == (old(systemRoleChangeable) && old(conversation) != [])
      ensures old(Valid()) ==> Valid()
    {
      if question.None? || IsBlank(question.value) {
        errorReported := true;
        return EmptyQuestion;
      }
      var builder := "||";
      ghost var banner := [];
      if conversation == [] {
        if systemRole.None? {
          return NullRole;
        }
        builder := builder + Upper(systemRole.value) + "\n";
        banner := Banner(systemRole.value);
        assert builder == "||" + banner;
        systemRoleChangeable := false;
      } else {
        assert builder == "||" + banner;
      }
      var words := Split(question.value);
      builder := AppendReversedWords(builder, words);
      reponse := Some(Trim(builder) + "||");
      assert reponse == Some(Answer(banner, question.value));
      AfficherConversation();
      return Answered;
    }

    /** The loop of `envoyer`: append each word reversed, then a space. */
    static method AppendReversedWords(builder: string, words: seq<string>) returns (r: string)
      ensures r == builder + Body(words)
    {
      r := builder;
      for i := 0 to |words|
        invariant r == builder + Body(words[..i])
      {
        assert words[..i + 1][..i] == words[..i];
        r := r + Reverse(words[i]) + " ";
      }
      assert words[..|words|] == words;
    }

    /** `nouveauChat` only navigates: it returns "index" and changes nothing. */
    method NouveauChat() returns (view: string)
      ensures view == "index"
    {
      view := "index";
    }

    method AfficherConversation()
      modifies this`conversation
      ensures conversation == old(conversation) + Exchange(question, reponse)
    {
      conversation := conversation + "== User:\n" + Str(question) + "\n== Serveur:\n" + Str(reponse) + "\n";
    }

    /** The catalogue of roles for the drop-down. Each call also sets the
        role back to the first entry's value. */
    method GetSystemRoles() returns (roles: seq<SelectItem>)
      modifies this`systemRole
      ensures |roles| == 3
      ensures roles[0] == SelectItem(AssistantRole, "Assistant")
      ensures roles[1] == SelectItem(TranslatorRole, "Traducteur Anglais-Français")
      ensures roles[2] == SelectItem(GuideRole, "Guide touristique")
      ensures systemRole == Some(roles[0].value)
    {
      roles := [];
      var role := AssistantRole;
      roles := roles + [SelectItem(role, "Assistant")];
      role := TranslatorRole;
      roles := roles + [SelectItem(role, "Traducteur Anglais-Français")];
      role := GuideRole;
      roles := roles + [SelectItem(role, "Guide touristique")];
      systemRole := Some(roles[0].value);
    }
  }
}
