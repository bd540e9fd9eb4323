# ChatBDAHA chat bean in Dafny

This project models `ChatBDAHA`, the view-scoped JSF backing bean behind the chat page. The bean keeps:

- the chosen system role;
- whether the role may still be changed;
- the last question and the last answer;
- the transcript of the conversation.

No language model is wired in yet. Until one is, `envoyer` builds its answer from the question:

1. A null or blank question is reported as an error and nothing else changes.
2. The answer starts with `"||"`.
3. On the first exchange (empty transcript), the upper-cased role text and a line break follow, and the role is locked.
4. The question is split on `\s+` and each word is appended reversed, then a space.
5. The whole text is `trim`med and a closing `"||"` is appended.
6. The question and the answer are appended to the transcript as a `== User:` / `== Serveur:` block.

`getSystemRoles` builds the three-entry role catalogue and resets the role to its first entry.

Files:

- `wrappers.dfy`: `Option`, which stands for a Java reference that may be null.
- `java_text.dfy` (module `JavaText`): the Java string operations the bean relies on.
  - `split("\\s+")` is modelled piece by piece, the way `Pattern.split` works: the pieces between the matches, then the trailing empty pieces dropped.
  - `trim`, `isBlank`, `StringBuilder.reverse` and ASCII upper-casing are modelled too.
  - Each operation has its characterising lemmas.
- `chat.dfy` (module `Chat`): the bean.
  - It is written as a class with the bean's fields and one method per operation.
  - `envoyer`'s loop is a `for` loop proved against the function `Body`.
  - The `Answer` function and the lemmas about it state what the answer is.
- `chat_scenarios.dfy` (module `ChatScenarios`): worked exchanges on concrete questions ("bonjour le monde", "ça va", a blank question), and `toggleDebug` applied twice.

The model follows the code. Where the code differs from what its own comments and the bean's user-facing text describe, the model takes the code's side:

- The javadoc of `envoyer` (ChatBDAHA.java:137-141) says the question is copied in lower case and framed by `"||"`. The code never lower-cases. It reverses each word instead, as described above, and the model does the same.
- The banner is the upper-cased role *value*, that is the full instruction text of the role, which itself ends in a line break. It is not the role's caption.
- `setSystemRole` does not check the lock. Only the page keeps a locked role from changing, so the setter always succeeds.
- A question that starts with whitespace gives a leading empty token. Its reversal is empty, so the answer body starts with a space, and `trim` keeps that space because `"||"` stands before it. On a later exchange, " bonjour" is answered with "\|\| ruojnob\|\|". On the first exchange the banner stands between `"||"` and that space (see `Chat.AnswerOfLeadingSpace`).
- "bonjour le monde" is answered with "ruojnob el ednom" (see `ChatScenarios.AnswerBonjour`).
- Control characters at most `' '` that are not `\s` (say U+0001) stay inside the words, and `trim` removes the ones that end up at the end of the answer body. The last word is reversed, so its leading control characters are the ones that go: a later "\u0001x" is answered with "\|\|x\|\|" (see `Chat.AnswerShape`).
- A question made only of such characters passes the blank check. Its whole body is then removed by `trim`. On the first exchange the line breaks that end the banner go too (see `Chat.AnswerWithoutVisibleCharacter`).

Java `null` is `None`. Two things stand for effects outside the bean:

- The error message `envoyer` adds to the `FacesContext` is the boolean field `errorReported`.
- The `NullPointerException` raised when the first question arrives while no role is set is the outcome `NullRole`, with no field changed. A plain return of null is `Answered` or `EmptyQuestion`.

## Model

| member | source | states |
|---|---|---|
| JavaText.RegexSpaceIsWhitespace | src/main/java/ma/emsi/daha/tp1ia2daha/jsf/ChatBDAHA.java:145 | every character `\s` matches is Java whitespace and at most `' '`, so `isBlank` and `trim` both treat it as space |
| JavaText.WordLength | src/main/java/ma/emsi/daha/tp1ia2daha/jsf/ChatBDAHA.java:161 | where the first match of `\s+` can start: a position within the string whose character, if any, is `\s` |
| JavaText.WordLengthSpec | src/main/java/ma/emsi/daha/tp1ia2daha/jsf/ChatBDAHA.java:161 | the text before that position holds no `\s`, so the match is the first one |
| JavaText.RunLengthSpec | src/main/java/ma/emsi/daha/tp1ia2daha/jsf/ChatBDAHA.java:161 | the greedy `\s+` match holds only `\s` characters |
| JavaText.FirstMatch | src/main/java/ma/emsi/daha/tp1ia2daha/jsf/ChatBDAHA.java:161 | the first match: no `\s` before it, only `\s` inside it, none right after it |
| JavaText.DropTrailingEmpty | src/main/java/ma/emsi/daha/tp1ia2daha/jsf/ChatBDAHA.java:161 | split with limit zero keeps a prefix of the pieces, drops only empty ones, and leaves no empty last piece |
| JavaText.PiecesReassemble | src/main/java/ma/emsi/daha/tp1ia2daha/jsf/ChatBDAHA.java:161 | the pieces and the matched separators weave back to the question; pieces hold no `\s`; separators are non-empty runs of `\s`; no inner piece is empty |
| JavaText.SplitShape | src/main/java/ma/emsi/daha/tp1ia2daha/jsf/ChatBDAHA.java:161 | tokens hold no `\s` and together are the question's other characters in order; only the first can be empty, exactly when the question is empty or starts with `\s` (and is not all `\s`); a question of `\s` only gives no token; a non-blank one ends with a non-empty token |
| Chat.SplitJoin | src/main/java/ma/emsi/daha/tp1ia2daha/jsf/ChatBDAHA.java:161 | splitting gives back any non-empty list of non-empty space-free words joined by single spaces |
| JavaText.SplitLeadingSpace | src/main/java/ma/emsi/daha/tp1ia2daha/jsf/ChatBDAHA.java:161 | one space and then a word splits into an empty leading token and the word |
| JavaText.Reverse | src/main/java/ma/emsi/daha/tp1ia2daha/jsf/ChatBDAHA.java:163 | the reversed word has the same length and holds the i-th character from the end at position i |
| JavaText.ReverseInvolutive | src/main/java/ma/emsi/daha/tp1ia2daha/jsf/ChatBDAHA.java:163 | reversing a word twice gives back the word |
| JavaText.ReverseKeepsCharacters | src/main/java/ma/emsi/daha/tp1ia2daha/jsf/ChatBDAHA.java:163 | reversal keeps the multiset of characters and keeps a word free of `\s` |
| JavaText.TrimStartSpec | src/main/java/ma/emsi/daha/tp1ia2daha/jsf/ChatBDAHA.java:166 | the leading half of `trim` keeps a suffix that is empty or starts above `' '`, and removes only characters at most `' '` |
| JavaText.TrimEndSpec | src/main/java/ma/emsi/daha/tp1ia2daha/jsf/ChatBDAHA.java:166 | the trailing half of `trim` keeps a prefix that is empty or ends above `' '`, and removes only characters at most `' '` |
| JavaText.TrimEndUnique | src/main/java/ma/emsi/daha/tp1ia2daha/jsf/ChatBDAHA.java:166 | the trailing trim is the one prefix that ends above `' '` (or is empty) with only characters at most `' '` after it |
| JavaText.UpperSpec | src/main/java/ma/emsi/daha/tp1ia2daha/jsf/ChatBDAHA.java:156 | upper-casing keeps the length, leaves no letter a–z, moves each a–z letter up by 32 and keeps every other character |
| JavaText.UpperIdempotent | src/main/java/ma/emsi/daha/tp1ia2daha/jsf/ChatBDAHA.java:156 | upper-casing twice is upper-casing once |
| Chat.BodyIsJoined | src/main/java/ma/emsi/daha/tp1ia2daha/jsf/ChatBDAHA.java:162-164 | the text the loop appends is the reversed words joined by single spaces, plus one space at the end (none for no word) |
| Chat.AnswerShape | src/main/java/ma/emsi/daha/tp1ia2daha/jsf/ChatBDAHA.java:153-166 | the answer is `"||"`, then the banner and the joined reversed words with the characters at most `' '` at their end removed, then `"||"` |
| Chat.AnswerFramed | src/main/java/ma/emsi/daha/tp1ia2daha/jsf/ChatBDAHA.java:153-166 | every answer has at least four characters, starts with `"||"` and ends with `"||"` |
| Chat.AnswerKeepsCharacters | src/main/java/ma/emsi/daha/tp1ia2daha/jsf/ChatBDAHA.java:161-164 | the reversed words hold exactly the question's characters other than `\s`, each as many times |
| Chat.AnswerWithBanner | src/main/java/ma/emsi/daha/tp1ia2daha/jsf/ChatBDAHA.java:154-166 | when the question has a character above `' '`, the first answer starts with `"||"`, the upper-cased role and a line break, and the trim only touches the words' end |
| Chat.AnswerWithoutVisibleCharacter | src/main/java/ma/emsi/daha/tp1ia2daha/jsf/ChatBDAHA.java:154-166 | when every character of the question is at most `' '`, the body vanishes: the first answer is `"||"` + the upper-cased role with its trailing line breaks trimmed + `"||"`, and a later one is `"||||"` |
| Chat.AnswerOfPlainQuestion | src/main/java/ma/emsi/daha/tp1ia2daha/jsf/ChatBDAHA.java:161-166 | for a non-blank question with no other control character, the answer is `"||"`, the banner, the reversed words joined by single spaces, `"||"` |
| Chat.AnswerOfLeadingSpace | src/main/java/ma/emsi/daha/tp1ia2daha/jsf/ChatBDAHA.java:161-166 | a question of one space and then a word is answered with `"||"`, the banner, a space, the reversed word, `"||"`: the leading empty token keeps its space |
| Chat.ChatBDAHA.constructor | src/main/java/ma/emsi/daha/tp1ia2daha/jsf/ChatBDAHA.java:27-63 | a new bean has no role, a changeable role, no question or answer, an empty transcript and debug off |
| Chat.ChatBDAHA.SetDebug | src/main/java/ma/emsi/daha/tp1ia2daha/jsf/ChatBDAHA.java:89-91 | sets the debug flag and nothing else |
| Chat.ChatBDAHA.ToggleDebug | src/main/java/ma/emsi/daha/tp1ia2daha/jsf/ChatBDAHA.java:94-96 | flips the debug flag and changes nothing else |
| Chat.ChatBDAHA.SetSystemRole | src/main/java/ma/emsi/daha/tp1ia2daha/jsf/ChatBDAHA.java:99-101 | sets the role whatever the lock says, and nothing else |
| Chat.ChatBDAHA.SetQuestion | src/main/java/ma/emsi/daha/tp1ia2daha/jsf/ChatBDAHA.java:111-113 | sets the question and nothing else |
| Chat.ChatBDAHA.SetReponse | src/main/java/ma/emsi/daha/tp1ia2daha/jsf/ChatBDAHA.java:124-126 | sets the answer and nothing else |
| Chat.ChatBDAHA.SetConversation | src/main/java/ma/emsi/daha/tp1ia2daha/jsf/ChatBDAHA.java:132-134 | replaces the transcript and changes nothing else |
| Chat.ChatBDAHA.Envoyer | src/main/java/ma/emsi/daha/tp1ia2daha/jsf/ChatBDAHA.java:144-171 | a null or blank question (and only such) is reported and changes nothing else; a null role on the first exchange fails before any change; otherwise the answer is `Answer` with the role banner exactly when the transcript was empty; the exchange block is appended; the old transcript is a strict prefix; the lock goes from changeable to locked only on the first exchange and never back; the lock invariant is kept |
| Chat.ChatBDAHA.AppendReversedWords | src/main/java/ma/emsi/daha/tp1ia2daha/jsf/ChatBDAHA.java:161-164 | the loop appends to the builder exactly `Body(words)`, each word reversed and followed by a space |
| Chat.ChatBDAHA.NouveauChat | src/main/java/ma/emsi/daha/tp1ia2daha/jsf/ChatBDAHA.java:184-186 | returns `"index"` and changes no field |
| Chat.ChatBDAHA.AfficherConversation | src/main/java/ma/emsi/daha/tp1ia2daha/jsf/ChatBDAHA.java:191-193 | appends `"== User:\n"`, the question, `"\n== Serveur:\n"`, the answer and `"\n"` (a null shows as `"null"`) to the transcript |
| Chat.ChatBDAHA.GetSystemRoles | src/main/java/ma/emsi/daha/tp1ia2daha/jsf/ChatBDAHA.java:195-220 | returns exactly three entries (Assistant, Traducteur Anglais-Français, Guide touristique) with their role texts, and sets the role to the first entry's value |
| ChatScenarios.AnswerBonjour | src/main/java/ma/emsi/daha/tp1ia2daha/jsf/ChatBDAHA.java:153-166 | "bonjour le monde" is answered with `"||"`, the banner, "ruojnob el ednom", `"||"` |
| ChatScenarios.AnswerCaVa | src/main/java/ma/emsi/daha/tp1ia2daha/jsf/ChatBDAHA.java:153-166 | a later "ça va" is answered with "\|\|aç av\|\|" |
| ChatScenarios.Session | src/main/java/ma/emsi/daha/tp1ia2daha/jsf/ChatBDAHA.java:144-171 | on a fresh bean with a role set, the first answer carries the banner, the second does not, and a blank third question is turned down |
| ChatScenarios.ToggleTwice | src/main/java/ma/emsi/daha/tp1ia2daha/jsf/ChatBDAHA.java:94-96 | toggling debug twice gives back the flag |

## Left out

- The Gemini client `LlmClientPourGemini` is not part of this model. It does network I/O through JAX-RS and an environment variable, and the bean never calls it.
- The `FacesContext` and `FacesMessage` API is not modelled. The error message of `envoyer` is the flag `errorReported`, and its texts are not kept.
- Upper: only the ASCII letters a–z are upper-cased. The French-locale Unicode case mapping of `toUpperCase` is not modelled, for example for accented letters, or for ß, which becomes "SS" and changes the length.
- Reverse: Java strings are UTF-16 and `StringBuilder.reverse` keeps surrogate pairs in order. Here strings are sequences of Unicode scalar values, and reversal reverses those, which is the same on well-formed text.
- The view-scope lifecycle is not modelled: CDI, JSF, `Serializable`, and the fresh bean instance the framework creates after `nouveauChat` navigates to "index".
- The plain getters, `isDebug`, `isSystemRoleChangeable`, and the setters of `texteReponseJson` and `texteRequeteJson` only read or assign one field. The fields are in the class and are read directly.
- Chat.ChatBDAHA.SetConversation: the parameter is a non-null string. The `NullPointerException` that `new StringBuilder(null)` raises is not modelled.
