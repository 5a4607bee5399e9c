/** The `articles` table as values: one row per article, the filters the store's SQL
    statements apply, and the listings its queries return (as rows and a count, not
    as formatted text). */
module Articles {
  import opened Wrappers
  import opened Text
  import opened Cipher
  import Users

  /** One row of `articles`. `body` holds the stored (Base64, encrypted) text. */
  datatype Row = Row(
    id: int,
    title: string,
    authors: string,
    abstractText: string,
    keywords: string,
    body: string,
    references: string,
    level: string,
    identifier: string,
    systemInfo: string)

  /** The caller's `Article` object, as `register` and `updateArticle` read it.
      `systemInfo` may be null; `body` is plaintext. */
  datatype Article = Article(
    title: string,
    authors: string,
    abstractText: string,
    keywords: string,
    body: string,
    references: string,
    level: string,
    identifier: string,
    systemInfo: Option<string>)

  /** The row `register` inserts and `updateArticle` writes for article `a` under `id`:
      a null group becomes "general" and the body is sealed under the IV of the authors. */
  function Stored(id: int, a: Article, c: Codec): (r: Row)
    ensures r.id == id
    ensures r.systemInfo == (if a.systemInfo.None? then Users.GeneralGroup else a.systemInfo.value)
    ensures r.title == a.title && r.authors == a.authors && r.abstractText == a.abstractText
    ensures r.keywords == a.keywords && r.references == a.references
    ensures r.level == a.level && r.identifier == a.identifier
    ensures r.body == EncryptBody(c, a.body, a.authors)
    ensures Lawful(c) ==> DecryptField(c, r.body, r.authors) == Some(a.body)
  {
    Row(id, a.title, a.authors, a.abstractText, a.keywords, EncryptBody(c, a.body, a.authors),
        a.references, a.level, a.identifier, a.systemInfo.GetOr(Users.GeneralGroup))
  }

  // ---------------------------------------------------------------------------
  // Selection: `SELECT * FROM articles WHERE <keep>`, in storage order.
  // ---------------------------------------------------------------------------

  function Select(rows: seq<Row>, keep: Row -> bool): seq<Row>
  {
    if rows == [] then []
    else
      var before := Select(rows[..|rows| - 1], keep);
      if keep(rows[|rows| - 1]) then before + [rows[|rows| - 1]] else before
  }

  /** A row is selected exactly when it is stored and satisfies the condition. */
  lemma {:induction false} SelectMembers(rows: seq<Row>, keep: Row -> bool)
    ensures forall r :: r in Select(rows, keep) <==> r in rows && keep(r)
  {
    if rows != [] {
      var last := rows[|rows| - 1];
      SelectMembers(rows[..|rows| - 1], keep);
      assert rows == rows[..|rows| - 1] + [last];
    }
  }

  lemma SelectSnoc(rows: seq<Row>, r: Row, keep: Row -> bool)
    ensures Select(rows + [r], keep) == if keep(r) then Select(rows, keep) + [r] else Select(rows, keep)
  {
    assert (rows + [r])[..|rows|] == rows;
  }

  /** Selection keeps storage order: selecting from a concatenation selects from
      each part, the first part's rows first. */
  lemma {:induction false} SelectAppend(a: seq<Row>, b: seq<Row>, keep: Row -> bool)
    ensures Select(a + b, keep) == Select(a, keep) + Select(b, keep)
    decreases |b|
  {
    if b == [] {
      assert a + b == a;
    } else {
      var init, last := b[..|b| - 1], b[|b| - 1];
      assert a + b == (a + init) + [last];
      assert b == init + [last];
      SelectSnoc(a + init, last, keep);
      SelectSnoc(init, last, keep);
      SelectAppend(a, init, keep);
    }
  }

  /** A condition every row meets selects the whole table. */
  lemma {:induction false} SelectEveryRow(rows: seq<Row>, keep: Row -> bool)
    requires forall r :: r in rows ==> keep(r)
    ensures Select(rows, keep) == rows
  {
    if rows != [] {
      assert rows == rows[..|rows| - 1] + [rows[|rows| - 1]];
      SelectEveryRow(rows[..|rows| - 1], keep);
    }
  }

  function Count(rows: seq<Row>, keep: Row -> bool): nat
  {
    |Select(rows, keep)|
  }

  /** `SELECT COUNT(*) ... > 0` holds exactly when some row meets the condition. */
  lemma CountPositive(rows: seq<Row>, keep: Row -> bool)
    ensures Count(rows, keep) > 0 <==> exists r :: r in rows && keep(r)
  {
    SelectMembers(rows, keep);
    if Count(rows, keep) > 0 {
      assert Select(rows, keep)[0] in Select(rows, keep);
    }
  }

  // The WHERE clauses of the store's statements.

  function Everything(): Row -> bool { (r: Row) => true }
  function IdIs(id: int): Row -> bool { (r: Row) => r.id == id }
  function IdIsNot(id: int): Row -> bool { (r: Row) => r.id != id }
  function TitleIs(title: string): Row -> bool { (r: Row) => r.title == title }
  function IdentifierIs(identifier: string): Row -> bool { (r: Row) => r.identifier == identifier }
  function IdentifierIsNot(identifier: string): Row -> bool { (r: Row) => r.identifier != identifier }
  /** `systemInfo = ? OR systemInfo = ? ...` */
  function InGroups(groups: set<string>): Row -> bool { (r: Row) => r.systemInfo in groups }
  function GroupIs(group: string): Row -> bool { (r: Row) => r.systemInfo == group }
  /** `identifier LIKE ? OR ...` with the terms as given (no `%` added). */
  function IdentifierAmong(terms: seq<string>): Row -> bool { (r: Row) => r.identifier in terms }
  function LevelIs(level: string): Row -> bool { (r: Row) => r.level == level }
  /** `authors LIKE '%author%'` */
  function AuthorsHave(author: string): Row -> bool { (r: Row) => Contains(r.authors, author) }
  /** `title LIKE '%phrase%'` */
  function TitleHas(phrase: string): Row -> bool { (r: Row) => Contains(r.title, phrase) }
  /** `abstract LIKE '%phrase%'` */
  function AbstractHas(phrase: string): Row -> bool { (r: Row) => Contains(r.abstractText, phrase) }

  predicate UniqueIds(rows: seq<Row>)
  {
    forall i, j :: 0 <= i < j < |rows| ==> rows[i].id != rows[j].id
  }

  predicate HasId(rows: seq<Row>, id: int)
  {
    exists r :: r in rows && r.id == id
  }

  /** A row can be appended without repeating an id exactly when its id is new. */
  lemma UniqueIdsSnoc(rows: seq<Row>, r: Row)
    ensures UniqueIds(rows + [r]) <==> UniqueIds(rows) && !HasId(rows, r.id)
  {
    var rs := rows + [r];
    if UniqueIds(rs) {
      assert UniqueIds(rows) by {
        forall i, j | 0 <= i < j < |rows| ensures rows[i].id != rows[j].id {
          assert rs[i] == rows[i] && rs[j] == rows[j];
        }
      }
      forall q | q in rows ensures q.id != r.id {
        var k :| 0 <= k < |rows| && rows[k] == q;
        assert rs[k] == q && rs[|rows|] == r;
      }
    }
    if UniqueIds(rows) && !HasId(rows, r.id) {
      forall i, j | 0 <= i < j < |rs| ensures rs[i].id != rs[j].id {
        if j == |rows| {
          assert rs[i] in rows;
        }
      }
    }
  }

  /** Selection never repeats an id. */
  lemma {:induction false} SelectKeepsIdsUnique(rows: seq<Row>, keep: Row -> bool)
    requires UniqueIds(rows)
    ensures UniqueIds(Select(rows, keep))
  {
    if rows != [] {
      var n := |rows| - 1;
      assert UniqueIds(rows[..n]);
      SelectKeepsIdsUnique(rows[..n], keep);
      SelectMembers(rows[..n], keep);
      var sel := Select(rows[..n], keep);
      if keep(rows[n]) {
        assert rows == rows[..n] + [rows[n]];
        UniqueIdsSnoc(rows[..n], rows[n]);
        UniqueIdsSnoc(sel, rows[n]);
        forall q | q in sel ensures q.id != rows[n].id {
          assert q in rows[..n];
        }
      }
    }
  }

  /** A condition splits the table: the rows it keeps and the rows it drops add up
      to the whole table. */
  lemma {:induction false} SelectPartition(rows: seq<Row>, keep: Row -> bool, drop: Row -> bool)
    requires forall r :: drop(r) == !keep(r)
    ensures |Select(rows, keep)| + |Select(rows, drop)| == |rows|
  {
    if rows != [] {
      SelectPartition(rows[..|rows| - 1], keep, drop);
    }
  }

  /** The table after `UPDATE ... WHERE id = ?`: every row with that id replaced. */
  function Updated(rows: seq<Row>, id: int, row: Row): (us: seq<Row>)
    ensures |us| == |rows|
  {
    seq(|rows|, i requires 0 <= i < |rows| => if rows[i].id == id then row else rows[i])
  }

  /** An update under the row's own id replaces the stored row with that id, keeps
      every other row where it is, and changes nothing when the id is not stored. */
  lemma UpdatedRows(rows: seq<Row>, row: Row)
    requires UniqueIds(rows)
    ensures var us := Updated(rows, row.id, row);
      && UniqueIds(us)
      && (forall i :: 0 <= i < |rows| ==> us[i].id == rows[i].id)
      && (HasId(rows, row.id) ==> row in us)
      && (!HasId(rows, row.id) ==> us == rows)
      && (forall r :: r in rows && r.id != row.id ==> r in us)
  {
    var us := Updated(rows, row.id, row);
    if HasId(rows, row.id) {
      var r :| r in rows && r.id == row.id;
      var i :| 0 <= i < |rows| && rows[i] == r;
      assert us[i] == row;
    }
    forall r | r in rows && r.id != row.id ensures r in us {
      var i :| 0 <= i < |rows| && rows[i] == r;
      assert us[i] == r;
    }
  }

  // ---------------------------------------------------------------------------
  // Listings: what a query reports, before formatting.
  // ---------------------------------------------------------------------------

  /** A list view shows four fields; a detail view shows all ten, with the body as
      stored or decrypted. */
  datatype Entry =
    | Summary(id: int, title: string, authors: string, abstractText: string)
    | Detail(id: int, title: string, authors: string, abstractText: string, keywords: string,
             body: string, references: string, level: string, identifier: string,
             systemInfo: string)

  /** `Listed`: the entries and the "Total Articles Retrieved" count.
      `NoMatches`: the "No articles found ..." message.
      `NoInput`: the "No groups/identifiers/search phrase provided." message.
      `DecryptFailed`: the exception `decryptField` throws out of the query. */
  datatype Listing =
    | Listed(entries: seq<Entry>, count: nat)
    | NoMatches
    | NoInput
    | DecryptFailed

  function Summarize(r: Row): Entry
  {
    Summary(r.id, r.title, r.authors, r.abstractText)
  }

  function Summaries(rows: seq<Row>): (es: seq<Entry>)
  {
    seq(|rows|, i requires 0 <= i < |rows| => Summarize(rows[i]))
  }

  lemma SummariesSnoc(rows: seq<Row>, r: Row)
    ensures Summaries(rows + [r]) == Summaries(rows) + [Summarize(r)]
  {
  }

  function ShowDetail(r: Row, body: string): Entry
  {
    Detail(r.id, r.title, r.authors, r.abstractText, r.keywords, body, r.references,
           r.level, r.identifier, r.systemInfo)
  }

  /** The body a detail view shows: the stored text verbatim, or its decryption
      under the IV of `ivSource(r)` (None when that throws). */
  function Shown(r: Row, canViewBody: bool, ivSource: Row -> string, c: Codec): Option<string>
  {
    if canViewBody then DecryptField(c, r.body, ivSource(r)) else Some(r.body)
  }

  predicate AllShown(rows: seq<Row>, canViewBody: bool, ivSource: Row -> string, c: Codec)
  {
    forall r :: r in rows ==> Shown(r, canViewBody, ivSource, c).Some?
  }

  function Details(rows: seq<Row>, canViewBody: bool, ivSource: Row -> string, c: Codec): seq<Entry>
    requires AllShown(rows, canViewBody, ivSource, c)
  {
    seq(|rows|, i requires 0 <= i < |rows| =>
      assert rows[i] in rows;
      ShowDetail(rows[i], Shown(rows[i], canViewBody, ivSource, c).value))
  }

  lemma DetailsSnoc(rows: seq<Row>, r: Row, canViewBody: bool, ivSource: Row -> string, c: Codec)
    requires AllShown(rows + [r], canViewBody, ivSource, c)
    ensures AllShown(rows, canViewBody, ivSource, c)
    ensures Details(rows + [r], canViewBody, ivSource, c)
         == Details(rows, canViewBody, ivSource, c) + [ShowDetail(r, Shown(r, canViewBody, ivSource, c).value)]
  {
    assert r in rows + [r];
    assert forall x :: x in rows ==> x in rows + [r];
  }

  /** The detail entries of the selected rows, or None when a body to be shown
      cannot be decrypted (the query then throws). */
  function DetailEntries(rows: seq<Row>, keep: Row -> bool, canViewBody: bool,
                         ivSource: Row -> string, c: Codec): Option<seq<Entry>>
  {
    var selected := Select(rows, keep);
    if AllShown(selected, canViewBody, ivSource, c)
    then Some(Details(selected, canViewBody, ivSource, c))
    else None
  }

  /** A non-empty result is listed with its size as the count; an empty one is
      reported as "No articles found". */
  function Report(entries: seq<Entry>): (l: Listing)
    ensures l.Listed? ==> l.count == |l.entries| > 0
  {
    if entries == [] then NoMatches else Listed(entries, |entries|)
  }

  /** The IV sources the store uses: the authors (register, update, group search),
      and the decimal id (the detail view). */
  function AuthorsIV(): Row -> string { (r: Row) => r.authors }
  function IdIV(): Row -> string { (r: Row) => IntToString(r.id) }

  // ---------------------------------------------------------------------------
  // The queries, as functions of the table.
  // ---------------------------------------------------------------------------

  /** `getAllArticlesAsString` */
  function AllArticles(rows: seq<Row>): (l: Listing)
    ensures l.Listed? <==> rows != []
    ensures !l.Listed? ==> l == NoMatches
    ensures l.Listed? ==> l.count == |rows|
  {
    Report(Summaries(rows))
  }

  function SetOf(groups: seq<string>): set<string>
  {
    set g | g in groups
  }

  /** `getArticlesByGroupsAsString` with the group list given as a set (the query's
      OR of equalities depends only on which names the list holds). */
  function GroupSearch(rows: seq<Row>, groups: set<string>, canViewBody: bool, c: Codec): (l: Listing)
    ensures l == NoInput <==> groups == {}
    ensures l.Listed? ==> l.count == |l.entries| > 0
  {
    if groups == {} then NoInput
    else
      match DetailEntries(rows, InGroups(groups), canViewBody, AuthorsIV(), c)
      case None => DecryptFailed
      case Some(es) => Report(es)
  }

  /** `getArticlesByIdentifiersAsString` */
  function IdentifierSearch(rows: seq<Row>, terms: seq<string>): (l: Listing)
    ensures l == NoInput <==> terms == []
    ensures l != DecryptFailed
    ensures l.Listed? ==> l.count == |l.entries| > 0
  {
    if terms == [] then NoInput else Report(Summaries(Select(rows, IdentifierAmong(terms))))
  }

  /** `getArticlesByContentLevelAsString` for a level other than "All": the count is
      reported even when it is zero. */
  function LevelSearch(rows: seq<Row>, level: string): (l: Listing)
    ensures l.Listed? && l.count == |l.entries| == Count(rows, LevelIs(level))
  {
    var es := Summaries(Select(rows, LevelIs(level)));
    Listed(es, |es|)
  }

  /** `getArticlesByAuthorAsString`: the author text is not trimmed, and a count of
      zero is reported as a listing. */
  function AuthorSearch(rows: seq<Row>, author: string): (l: Listing)
    ensures l.Listed? && l.count == |l.entries| == Count(rows, AuthorsHave(author))
  {
    var es := Summaries(Select(rows, AuthorsHave(author)));
    Listed(es, |es|)
  }

  /** `getArticlesByTitleAsString` */
  function TitleSearch(rows: seq<Row>, phrase: string): (l: Listing)
    ensures l == NoInput <==> IsBlank(phrase)
    ensures l != DecryptFailed
    ensures l.Listed? ==> l.count == |l.entries| > 0
  {
    if IsBlank(phrase) then NoInput else Report(Summaries(Select(rows, TitleHas(Trim(phrase)))))
  }

  /** `getArticlesByAbstractAsString` */
  function AbstractSearch(rows: seq<Row>, phrase: string): (l: Listing)
    ensures l == NoInput <==> IsBlank(phrase)
    ensures l != DecryptFailed
    ensures l.Listed? ==> l.count == |l.entries| > 0
  {
    if IsBlank(phrase) then NoInput else Report(Summaries(Select(rows, AbstractHas(Trim(phrase)))))
  }

  /** `displayAllArticles`: a special user gets the plain list of every article;
      anyone else gets the group search over their own groups, with bodies decrypted
      only for the Instructor role. */
  function DisplayAll(rows: seq<Row>, isSpecial: bool, groups: set<string>, isInstructor: bool,
                      c: Codec): (l: Listing)
    ensures isSpecial ==> (l.Listed? <==> rows != []) && (!l.Listed? ==> l == NoMatches)
    ensures !isSpecial ==> (l == NoInput <==> groups == {})
  {
    if isSpecial then AllArticles(rows) else GroupSearch(rows, groups, isInstructor, c)
  }

  /** `getMoreInfoForArticleAsString` as written: the body is decrypted under the IV
      of the decimal id, not of the authors it was sealed with. */
  function MoreInfo(rows: seq<Row>, id: int, canViewBody: bool, c: Codec): (l: Listing)
    ensures l != NoInput
    ensures l.Listed? ==> l.count == |l.entries| > 0
  {
    match DetailEntries(rows, IdIs(id), canViewBody, IdIV(), c)
    case None => DecryptFailed
    case Some(es) => Report(es)
  }

  /** The detail view as evidently intended: decrypted under the authors, as the
      group search does. */
  function MoreInfoCorrected(rows: seq<Row>, id: int, canViewBody: bool, c: Codec): (l: Listing)
    ensures l != NoInput
    ensures l.Listed? ==> l.count == |l.entries| > 0
  {
    match DetailEntries(rows, IdIs(id), canViewBody, AuthorsIV(), c)
    case None => DecryptFailed
    case Some(es) => Report(es)
  }

  /** The distinct `systemInfo` values of the table. */
  function SystemInfos(rows: seq<Row>): set<string>
  {
    set r | r in rows :: r.systemInfo
  }

  function EntryIds(es: seq<Entry>): seq<int>
  {
    seq(|es|, i requires 0 <= i < |es| => es[i].id)
  }

  function ListedIds(l: Listing): seq<int>
  {
    if l.Listed? then EntryIds(l.entries) else []
  }

  // ---------------------------------------------------------------------------
  // What the queries guarantee.
  // ---------------------------------------------------------------------------

  lemma DetailsIds(rows: seq<Row>, canViewBody: bool, ivSource: Row -> string, c: Codec)
    requires AllShown(rows, canViewBody, ivSource, c)
    ensures forall id :: id in EntryIds(Details(rows, canViewBody, ivSource, c)) <==> HasId(rows, id)
  {
    var es := Details(rows, canViewBody, ivSource, c);
    forall id ensures id in EntryIds(es) <==> HasId(rows, id) {
      if id in EntryIds(es) {
        var i :| 0 <= i < |es| && EntryIds(es)[i] == id;
        assert rows[i] in rows && rows[i].id == id;
      }
      if HasId(rows, id) {
        var r :| r in rows && r.id == id;
        var i :| 0 <= i < |rows| && rows[i] == r;
        assert EntryIds(es)[i] == id;
      }
    }
  }

  lemma SummariesIds(rows: seq<Row>)
    ensures forall id :: id in EntryIds(Summaries(rows)) <==> HasId(rows, id)
  {
    var es := Summaries(rows);
    forall id ensures id in EntryIds(es) <==> HasId(rows, id) {
      if id in EntryIds(es) {
        var i :| 0 <= i < |es| && EntryIds(es)[i] == id;
        assert rows[i] in rows && rows[i].id == id;
      }
      if HasId(rows, id) {
        var r :| r in rows && r.id == id;
        var i :| 0 <= i < |rows| && rows[i] == r;
        assert EntryIds(es)[i] == id;
      }
    }
  }

  /** The group search fails only when bodies are to be decrypted and some row of
      the caller's groups does not decrypt under its authors. */
  lemma GroupSearchFailure(rows: seq<Row>, groups: set<string>, canViewBody: bool, c: Codec)
    ensures GroupSearch(rows, groups, canViewBody, c) == DecryptFailed
        <==> groups != {} && canViewBody
             && exists r :: r in rows && r.systemInfo in groups && DecryptField(c, r.body, r.authors).None?
  {
    SelectMembers(rows, InGroups(groups));
  }

  /** The group search lists exactly the stored rows whose group is one of the given
      ones, identified by id, with a count equal to the number listed; without the
      right to view bodies every body is the stored ciphertext. */
  lemma GroupSearchLists(rows: seq<Row>, groups: set<string>, canViewBody: bool, c: Codec)
    requires GroupSearch(rows, groups, canViewBody, c) != DecryptFailed
    requires groups != {}
    ensures var l := GroupSearch(rows, groups, canViewBody, c);
      && (l.Listed? ==> l.count == |l.entries|)
      && (forall id :: id in ListedIds(l) <==> exists r :: r in rows && r.id == id && r.systemInfo in groups)
      && (l.NoMatches? <==> forall r :: r in rows ==> r.systemInfo !in groups)
      && (!canViewBody && l.Listed? ==>
            forall e :: e in l.entries ==> exists r :: r in rows && r.systemInfo in groups && e == ShowDetail(r, r.body))
  {
    var keep := InGroups(groups);
    var selected := Select(rows, keep);
    SelectMembers(rows, keep);
    assert AllShown(selected, canViewBody, AuthorsIV(), c);
    var es := Details(selected, canViewBody, AuthorsIV(), c);
    DetailsIds(selected, canViewBody, AuthorsIV(), c);
    forall id ensures HasId(selected, id) <==> exists r :: r in rows && r.id == id && r.systemInfo in groups {
      if HasId(selected, id) {
        var r :| r in selected && r.id == id;
        assert r in rows;
      }
    }
    if selected != [] {
      assert selected[0] in selected;
    }
    if !canViewBody {
      forall e | e in es ensures exists r :: r in rows && r.systemInfo in groups && e == ShowDetail(r, r.body) {
        var i :| 0 <= i < |es| && es[i] == e;
        assert selected[i] in selected;
      }
    }
  }

  /** Every body the search decrypts opens under its own authors: a row sealed by
      `register` or `updateArticle` is shown with the plaintext it was given. */
  lemma GroupSearchRevealsPlaintext(rows: seq<Row>, groups: set<string>, c: Codec, row: Row, plain: string)
    requires Lawful(c)
    requires row in rows && row.systemInfo in groups
    requires row.body == EncryptBody(c, plain, row.authors)
    requires GroupSearch(rows, groups, true, c) != DecryptFailed
    ensures GroupSearch(rows, groups, true, c).Listed?
    ensures ShowDetail(row, plain) in GroupSearch(rows, groups, true, c).entries
  {
    var keep := InGroups(groups);
    var selected := Select(rows, keep);
    SelectMembers(rows, keep);
    assert row in selected;
    var i :| 0 <= i < |selected| && selected[i] == row;
    var es := Details(selected, true, AuthorsIV(), c);
    assert es[i] == ShowDetail(row, plain);
  }

  /** Which rows a caller sees through `displayAllArticles`: a special user sees every
      row; anyone else sees a row only when its group is one of theirs, and (unless
      a decryption fails) then does see it. */
  lemma DisplayAllVisibility(rows: seq<Row>, isSpecial: bool, groups: set<string>, isInstructor: bool,
                             c: Codec, row: Row)
    requires UniqueIds(rows)
    requires row in rows
    ensures var l := DisplayAll(rows, isSpecial, groups, isInstructor, c);
      && (isSpecial ==> row.id in ListedIds(l))
      && (!isSpecial && row.systemInfo !in groups ==> row.id !in ListedIds(l))
      && (!isSpecial && row.systemInfo in groups && l != DecryptFailed ==> row.id in ListedIds(l))
  {
    var l := DisplayAll(rows, isSpecial, groups, isInstructor, c);
    if isSpecial {
      SummariesIds(rows);
      assert HasId(rows, row.id);
    } else if groups != {} && l != DecryptFailed {
      GroupSearchLists(rows, groups, isInstructor, c);
      if row.id in ListedIds(l) {
        var r :| r in rows && r.id == row.id && r.systemInfo in groups;
        var i :| 0 <= i < |rows| && rows[i] == r;
        var j :| 0 <= j < |rows| && rows[j] == row;
        assert i == j;
      }
    }
  }

  /** Rows that differ at most in their group. */
  predicate SameButGroups(a: seq<Row>, b: seq<Row>)
  {
    |a| == |b| && forall i :: 0 <= i < |a| ==> a[i] == b[i].(systemInfo := a[i].systemInfo)
  }

  /** A condition that does not look at the group. */
  ghost predicate IgnoresGroup(keep: Row -> bool)
  {
    forall r: Row, g: string :: keep(r) == keep(r.(systemInfo := g))
  }

  lemma {:induction false} SelectIgnoresGroups(a: seq<Row>, b: seq<Row>, keep: Row -> bool)
    requires SameButGroups(a, b) && IgnoresGroup(keep)
    ensures Summaries(Select(a, keep)) == Summaries(Select(b, keep))
  {
    if a != [] {
      var n := |a| - 1;
      assert SameButGroups(a[..n], b[..n]);
      SelectIgnoresGroups(a[..n], b[..n], keep);
      assert keep(a[n]) == keep(b[n]) by {
        assert a[n] == b[n].(systemInfo := a[n].systemInfo);
      }
      assert a == a[..n] + [a[n]] && b == b[..n] + [b[n]];
      SelectSnoc(a[..n], a[n], keep);
      SelectSnoc(b[..n], b[n], keep);
      SummariesSnoc(Select(a[..n], keep), a[n]);
      SummariesSnoc(Select(b[..n], keep), b[n]);
    }
  }

  /** The identifier, level, author, title and abstract searches look at no group:
      two tables that differ only in the groups of their rows give the same listing. */
  lemma TextSearchesIgnoreGroups(a: seq<Row>, b: seq<Row>, terms: seq<string>, level: string,
                                 author: string, phrase: string)
    requires SameButGroups(a, b)
    ensures IdentifierSearch(a, terms) == IdentifierSearch(b, terms)
    ensures LevelSearch(a, level) == LevelSearch(b, level)
    ensures AuthorSearch(a, author) == AuthorSearch(b, author)
    ensures TitleSearch(a, phrase) == TitleSearch(b, phrase)
    ensures AbstractSearch(a, phrase) == AbstractSearch(b, phrase)
  {
    SelectIgnoresGroups(a, b, IdentifierAmong(terms));
    SelectIgnoresGroups(a, b, LevelIs(level));
    SelectIgnoresGroups(a, b, AuthorsHave(author));
    SelectIgnoresGroups(a, b, TitleHas(Trim(phrase)));
    SelectIgnoresGroups(a, b, AbstractHas(Trim(phrase)));
  }

  /** The text searches list exactly the rows that match, whatever their group. */
  lemma TextSearchesMatch(rows: seq<Row>, terms: seq<string>, level: string, author: string,
                          phrase: string, row: Row)
    requires UniqueIds(rows) && row in rows
    ensures terms != [] ==> (row.id in ListedIds(IdentifierSearch(rows, terms)) <==> row.identifier in terms)
    ensures row.id in ListedIds(LevelSearch(rows, level)) <==> row.level == level
    ensures row.id in ListedIds(AuthorSearch(rows, author)) <==> Contains(row.authors, author)
    ensures !IsBlank(phrase) ==> (row.id in ListedIds(TitleSearch(rows, phrase)) <==> Contains(row.title, Trim(phrase)))
    ensures !IsBlank(phrase) ==> (row.id in ListedIds(AbstractSearch(rows, phrase)) <==> Contains(row.abstractText, Trim(phrase)))
  {
    SummaryListingMatches(rows, IdentifierAmong(terms), row);
    SummaryListingMatches(rows, LevelIs(level), row);
    SummaryListingMatches(rows, AuthorsHave(author), row);
    SummaryListingMatches(rows, TitleHas(Trim(phrase)), row);
    SummaryListingMatches(rows, AbstractHas(Trim(phrase)), row);
  }

  lemma SummaryListingMatches(rows: seq<Row>, keep: Row -> bool, row: Row)
    requires UniqueIds(rows) && row in rows
    ensures var es := Summaries(Select(rows, keep));
      && (row.id in EntryIds(es) <==> keep(row))
      && (row.id in ListedIds(Report(es)) <==> keep(row))
  {
    var selected := Select(rows, keep);
    SelectMembers(rows, keep);
    SummariesIds(selected);
    if HasId(selected, row.id) {
      var r :| r in selected && r.id == row.id;
      var i :| 0 <= i < |rows| && rows[i] == r;
      var j :| 0 <= j < |rows| && rows[j] == row;
      assert i == j;
    }
  }

  // ---------------------------------------------------------------------------
  // The detail view.
  // ---------------------------------------------------------------------------

  /** Ids are the primary key: selecting by the id of a stored row yields that row alone. */
  lemma {:induction false} SelectById(rows: seq<Row>, row: Row)
    requires UniqueIds(rows) && row in rows
    ensures Select(rows, IdIs(row.id)) == [row]
  {
    var n := |rows| - 1;
    assert rows == rows[..n] + [rows[n]];
    assert UniqueIds(rows[..n]);
    if rows[n] == row {
      forall r | r in rows[..n] ensures r.id != row.id {
        var i :| 0 <= i < n && rows[..n][i] == r;
        assert rows[i] == r;
      }
      CountPositive(rows[..n], IdIs(row.id));
    } else {
      assert row in rows[..n];
      SelectById(rows[..n], row);
      var i :| 0 <= i < n && rows[i] == row;
      assert rows[n].id != row.id;
    }
  }

  /** Without the right to view bodies both forms of the detail view agree and show
      the stored ciphertext of the one row with that id. */
  lemma RedactedDetailView(rows: seq<Row>, row: Row, c: Codec)
    requires UniqueIds(rows) && row in rows
    ensures MoreInfo(rows, row.id, false, c) == MoreInfoCorrected(rows, row.id, false, c)
    ensures MoreInfo(rows, row.id, false, c) == Listed([ShowDetail(row, row.body)], 1)
  {
    SelectById(rows, row);
    assert row in [row];
  }

  /** The corrected detail view of a row sealed by `register` or `updateArticle`
      shows the plaintext it was given. */
  lemma DetailViewRevealsPlaintext(rows: seq<Row>, row: Row, plain: string, c: Codec)
    requires Lawful(c)
    requires UniqueIds(rows) && row in rows
    requires row.body == EncryptBody(c, plain, row.authors)
    ensures MoreInfoCorrected(rows, row.id, true, c) == Listed([ShowDetail(row, plain)], 1)
  {
    SelectById(rows, row);
    assert row in [row];
  }

  /** An id that is not stored gives "No articles found" in either form. */
  lemma DetailViewOfMissingId(rows: seq<Row>, id: int, canViewBody: bool, c: Codec)
    requires !HasId(rows, id)
    ensures MoreInfo(rows, id, canViewBody, c) == NoMatches
    ensures MoreInfoCorrected(rows, id, canViewBody, c) == NoMatches
  {
    SelectMembers(rows, IdIs(id));
    if Select(rows, IdIs(id)) != [] {
      assert Select(rows, IdIs(id))[0] in Select(rows, IdIs(id));
    }
  }

  /** The article "Notes" by "Ada Lovelace" with body "secret text", stored as row 1. */
  function SampleArticle(): Article
  {
    Article("Notes", "Ada Lovelace", "On engines", "engine", "secret text", "none",
            "beginner", "ada-1", Some("general"))
  }

  /** As written, the detail view of a row that `register` appended to any table
      throws whenever its body does not open under the IV of the decimal id. */
  lemma DetailViewAsWritten(rows: seq<Row>, id: int, a: Article, c: Codec)
    requires UniqueIds(rows) && !HasId(rows, id)
    requires DecryptField(c, EncryptBody(c, a.body, a.authors), IntToString(id)).None?
    ensures MoreInfo(rows + [Stored(id, a, c)], id, true, c) == DecryptFailed
  {
    var row := Stored(id, a, c);
    UniqueIdsSnoc(rows, row);
    assert row in rows + [row];
    DetailViewOfUnopenedRow(rows + [row], row, c);
  }

  /** In any table, the detail view throws for a row whose body does not open under
      the IV of its id. */
  lemma DetailViewOfUnopenedRow(rows: seq<Row>, row: Row, c: Codec)
    requires UniqueIds(rows) && row in rows
    requires DecryptField(c, row.body, IntToString(row.id)).None?
    ensures MoreInfo(rows, row.id, true, c) == DecryptFailed
  {
    SelectById(rows, row);
    assert row in [row];
  }

  /** The article "Notes" by "Ada Lovelace", stored as row 1: with the sample codec the
      detail view as written throws, where the corrected view shows the plaintext. */
  lemma DetailViewAsWrittenFails()
    ensures MoreInfo([Stored(1, SampleArticle(), SampleCodec)], 1, true, SampleCodec) == DecryptFailed
    ensures MoreInfoCorrected([Stored(1, SampleArticle(), SampleCodec)], 1, true, SampleCodec)
         == Listed([ShowDetail(Stored(1, SampleArticle(), SampleCodec), "secret text")], 1)
  {
    var a := SampleArticle();
    assert IntToString(1) == "1";
    assert |a.authors| == 12;
    SampleForeignIVFails(a.body, a.authors, IntToString(1));
    var row := Stored(1, a, SampleCodec);
    DetailViewAsWritten([], 1, a, SampleCodec);
    assert [] + [row] == [row];
    SampleCodecIsLawful();
    DetailViewRevealsPlaintext([row], row, a.body, SampleCodec);
  }

  // ---------------------------------------------------------------------------
  // The set of groups in use.
  // ---------------------------------------------------------------------------

  /** A non-empty table has at least one group in use, so an empty answer to
      "which groups are in use" is wrong for it. */
  lemma GroupsInUse(rows: seq<Row>)
    ensures rows != [] <==> SystemInfos(rows) != {}
    ensures forall r :: r in rows ==> r.systemInfo in SystemInfos(rows)
  {
    if rows != [] {
      assert rows[0].systemInfo in SystemInfos(rows);
    }
  }
}
