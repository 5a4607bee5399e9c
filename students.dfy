/** `Student`: composing a message to the staff. The message list is one list shared
    by every student (a static field in the source), so it is an object of its own
    that every `Student` refers to. */
module Students {
  import opened Wrappers
  import opened Text
  import Users

  /** The word limit of a subject and of a description. */
  const MaxWords: int := 100

  /** What `trimToMaxWords(text, maxWords)` returns: the text itself when it has at most
      `maxWords` words, else its first `maxWords` words (none when `maxWords` is negative). */
  function TrimmedToWords(text: string, maxWords: int): (r: string)
    ensures |Words(text)| <= maxWords ==> r == text
    ensures maxWords >= 1 ==> CountWords(r) <= maxWords
  {
    if |Words(text)| <= maxWords then text
    else
      var k := if maxWords < 0 then 0 else maxWords;
      if maxWords >= 1 then FirstWordsBound(text, k); FirstWords(text, k)
      else FirstWords(text, k)
  }

  /** A subject or description as `sendMessage` stores it. */
  function FitToLimit(text: string): (r: string)
    ensures CountWords(r) <= MaxWords
    ensures CountWords(text) <= MaxWords ==> r == text
  {
    if CountWords(text) > MaxWords then TrimmedToWords(text, MaxWords) else text
  }

  /** The stored form of a message. */
  function Message(subject: string, description: string, from: string): (m: string)
    ensures |m| == 30 + |subject| + |description| + |from|
    ensures m[..9 + |subject|] == "Subject: " + subject
    ensures m[9 + |subject|..9 + |subject| + 14] == "\nDescription: "
    ensures m[23 + |subject|..23 + |subject| + |description|] == description
    ensures m[23 + |subject| + |description|..|m| - |from|] == "\nFrom: "
    ensures m[|m| - |from|..] == from
  {
    "Subject: " + subject + "\nDescription: " + description + "\nFrom: " + from
  }

  /** A text within the limit is kept verbatim; a longer one becomes its first
      `maxWords` words joined by single blanks, which then count exactly `maxWords`
      words. The second part needs those words to hold no control character, which
      the final trim() would strip. */
  lemma TrimmedToWordsMeaning(text: string, maxWords: int)
    requires maxWords >= 1
    requires forall i :: 0 <= i < maxWords && i < |Words(text)| ==> IsPlainToken(Words(text)[i])
    ensures CountWords(text) <= maxWords ==> TrimmedToWords(text, maxWords) == text
    ensures CountWords(text) > maxWords ==>
      && TrimmedToWords(text, maxWords) == JoinWords(Words(text)[..maxWords])
      && Words(TrimmedToWords(text, maxWords)) == Words(text)[..maxWords]
      && CountWords(TrimmedToWords(text, maxWords)) == maxWords
    ensures CountWords(TrimmedToWords(text, maxWords)) <= maxWords
  {
    if CountWords(text) > maxWords {
      FirstWordsAreKept(text, maxWords);
    }
  }

  /** `sendMessage` applies the limit only when it is exceeded, which is what
      `trimToMaxWords` does by itself. */
  lemma FitToLimitIsTrim(text: string)
    ensures FitToLimit(text) == TrimmedToWords(text, MaxWords)
  {
  }

  class MessageDataset {
    var messages: seq<string>

    constructor ()
      ensures messages == []
    {
      messages := [];
    }
  }

  class Student {
    /** The `User` part of the student. */
    const account: Users.User
    var userDatabase: map<string, Users.User>
    /** The shared message list. */
    const dataset: MessageDataset

    constructor (userName: string, userDatabase: map<string, Users.User>, dataset: MessageDataset)
      ensures fresh(account) && account.Snapshot() == Users.NewProfile(userName)
      ensures this.userDatabase == userDatabase && this.dataset == dataset
    {
      account := new Users.User(userName);
      this.userDatabase := userDatabase;
      this.dataset := dataset;
    }

    /** `sendMessage`: a missing or empty subject or description is refused and
        nothing is stored; otherwise exactly one message is appended. */
    method SendMessage(subject: Option<string>, description: Option<string>) returns (sent: bool)
      modifies dataset
      ensures sent <==> subject.Some? && subject.value != [] && description.Some? && description.value != []
      ensures !sent ==> dataset.messages == old(dataset.messages)
      ensures sent ==>
                dataset.messages == old(dataset.messages)
                  + [Message(FitToLimit(subject.value), FitToLimit(description.value), account.userName)]
    {
      if subject.None? || subject.value == [] || description.None? || description.value == [] {
        return false;
      }
      var s := subject.value;
      var d := description.value;
      if CountWords(s) > MaxWords {
        s := TrimToMaxWords(s, MaxWords);
      }
      if CountWords(d) > MaxWords {
        d := TrimToMaxWords(d, MaxWords);
      }
      dataset.messages := dataset.messages + [Message(s, d, account.userName)];
      sent := true;
    }

    /** `trimToMaxWords`: the text is returned as is when it has at most `maxWords`
        words; otherwise each of the first `maxWords` words is appended with a blank
        and the result trimmed. */
    static method TrimToMaxWords(text: string, maxWords: int) returns (r: string)
      ensures r == TrimmedToWords(text, maxWords)
    {
      var words := Words(text);
      if |words| <= maxWords {
        return text;
      }
      var n := if maxWords < 0 then 0 else maxWords;
      var built := "";
      for i := 0 to n
        invariant built == Spaced(words[..i])
      {
        assert words[..i + 1] == words[..i] + [words[i]];
        SpacedSnoc(words[..i], words[i]);
        built := built + words[i] + " ";
      }
      r := Trim(built);
    }
  }
}
