/** Two rules that the search and article-creation screens apply on their own, set
    beside the store's rules they differ from. */
module Screens {
  import opened Text
  import opened Cipher
  import opened Articles
  import Users

  /** Who may read bodies through `displayAllArticles`: the Instructor role only. */
  predicate StoreCanViewBody(isInstructor: bool, isSpecial: bool)
  {
    isInstructor
  }

  /** Who may read bodies through the search screen's group search and detail view:
      the Instructor role, or a special user. */
  predicate ScreenCanViewBody(isInstructor: bool, isSpecial: bool)
  {
    isInstructor || isSpecial
  }

  /** The two rules disagree exactly for a special user without the Instructor role,
      and for such a user they decide what is shown. `displayAllArticles` (which,
      for a user who is not special, is the group search under the store's rule)
      gives a special user the list view of every row, with no body at all. The
      search screen's group search gives the same user the plaintext of a row of
      the searched groups that `register` sealed under its authors. */
  lemma BodyRulesDiffer(rows: seq<Row>, groups: set<string>, c: Codec, row: Row, plain: string)
    requires Lawful(c)
    requires row in rows && row.systemInfo in groups
    requires row.body == EncryptBody(c, plain, row.authors)
    requires GroupSearch(rows, groups, ScreenCanViewBody(false, true), c) != DecryptFailed
    ensures forall isInstructor: bool, isSpecial: bool ::
      (ScreenCanViewBody(isInstructor, isSpecial) != StoreCanViewBody(isInstructor, isSpecial)
       <==> isSpecial && !isInstructor)
    ensures forall isInstructor: bool ::
      DisplayAll(rows, false, groups, isInstructor, c)
        == GroupSearch(rows, groups, StoreCanViewBody(isInstructor, false), c)
    ensures DisplayAll(rows, true, groups, false, c).Listed?
    ensures forall e :: e in DisplayAll(rows, true, groups, false, c).entries ==> e.Summary?
    ensures GroupSearch(rows, groups, ScreenCanViewBody(false, true), c).Listed?
    ensures ShowDetail(row, plain) in GroupSearch(rows, groups, ScreenCanViewBody(false, true), c).entries
  {
    var es := Summaries(rows);
    forall e | e in es ensures e.Summary? {
      var i :| 0 <= i < |es| && es[i] == e;
    }
    assert |es| > 0;
    GroupSearchRevealsPlaintext(rows, groups, c, row, plain);
  }

  /** The group the create-article form files an article under: a blank field becomes
      "General", capitalised, where the store's own default is "general". */
  function FormGroup(systemInfo: string): (g: string)
    ensures IsBlank(systemInfo) ==> g != Users.GeneralGroup
    ensures !IsBlank(systemInfo) ==> g == systemInfo
  {
    if IsBlank(systemInfo) then "General" else systemInfo
  }

  /** An article created from the form with the group left blank is not listed by
      `displayAllArticles` for a new user who is not special, although every new user
      belongs to "general". */
  lemma FormDefaultHiddenFromNewUsers(rows: seq<Row>, row: Row, blank: string, userName: string,
                                      isInstructor: bool, c: Codec)
    requires UniqueIds(rows) && row in rows
    requires IsBlank(blank) && row.systemInfo == FormGroup(blank)
    ensures row.id !in ListedIds(DisplayAll(rows, false, Users.NewProfile(userName).groups, isInstructor, c))
  {
    DisplayAllVisibility(rows, false, Users.NewProfile(userName).groups, isInstructor, c, row);
  }
}
