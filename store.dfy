/** `Article` as a database handle: the `articles` table is a sequence of rows the
    methods replace, the identity counter a field, and the cipher a `Codec`. Every
    query is proved to return what the functions of module Articles say. */
module Store {
  import opened Wrappers
  import opened Text
  import opened Cipher
  import opened Articles
  import opened Backup
  import Users

  class ArticleDatabase {
    /** The rows of `articles`, in storage order. */
    var rows: seq<Row>
    /** The next value of the `id INT AUTO_INCREMENT` column. */
    var nextId: int
    const codec: Codec

    /** Ids are a primary key, and every stored id lies below the counter. */
    ghost predicate Valid()
      reads this
    {
      UniqueIds(rows) && forall r :: r in rows ==> r.id < nextId
    }

    /** `connectToDatabase` on a fresh database: an empty table. */
    constructor (codec: Codec)
      ensures Valid()
      ensures rows == [] && nextId == 1 && this.codec == codec
    {
      rows := [];
      nextId := 1;
      this.codec := codec;
    }

    /** `register`: inserts the article under the next id, its body sealed under the
        IV of its authors and a null group stored as "general". */
    method Register(a: Article) returns (id: int)
      requires Valid()
      modifies this
      ensures Valid()
      ensures id == old(nextId) && nextId == id + 1 && !old(HasId(rows, id))
      ensures rows == old(rows) + [Stored(id, a, codec)]
    {
      id := nextId;
      rows := rows + [Stored(id, a, codec)];
      nextId := nextId + 1;
    }

    /** `doesArticleExist(String title)` */
    function DoesArticleExist(title: string): (found: bool)
      reads this
      ensures found <==> exists r :: r in rows && r.title == title
    {
      CountPositive(rows, TitleIs(title));
      Count(rows, TitleIs(title)) > 0
    }

    /** `doesArticleExist(int id)` */
    function DoesArticleExistWithId(id: int): (found: bool)
      reads this
      ensures found <==> HasId(rows, id)
    {
      CountPositive(rows, IdIs(id));
      Count(rows, IdIs(id)) > 0
    }

    /** `doesIdentifierExist` */
    function DoesIdentifierExist(identifier: string): (found: bool)
      reads this
      ensures found <==> exists r :: r in rows && r.identifier == identifier
    {
      CountPositive(rows, IdentifierIs(identifier));
      Count(rows, IdentifierIs(identifier)) > 0
    }

    /** The result-set loop of the list views: the four summary fields of every
        matching row, and the running count. */
    method ScanSummaries(keep: Row -> bool) returns (entries: seq<Entry>, count: nat)
      ensures entries == Summaries(Select(rows, keep))
      ensures count == |entries|
    {
      entries, count := [], 0;
      var i := 0;
      while i < |rows|
        invariant 0 <= i <= |rows|
        invariant entries == Summaries(Select(rows[..i], keep))
        invariant count == |entries|
      {
        assert rows[..i + 1] == rows[..i] + [rows[i]];
        SelectSnoc(rows[..i], rows[i], keep);
        if keep(rows[i]) {
          SummariesSnoc(Select(rows[..i], keep), rows[i]);
          entries := entries + [Summarize(rows[i])];
          count := count + 1;
        }
        i := i + 1;
      }
      assert rows[..i] == rows;
    }

    /** The result-set loop of the detail views: every field of every matching row,
        with the body decrypted under the IV of `ivSource` when `canViewBody`; the
        first body that does not decrypt ends the query (None). */
    method ScanDetails(keep: Row -> bool, canViewBody: bool, ivSource: Row -> string)
      returns (entries: Option<seq<Entry>>)
      ensures entries == DetailEntries(rows, keep, canViewBody, ivSource, codec)
    {
      var shown: seq<Entry> := [];
      var i := 0;
      while i < |rows|
        invariant 0 <= i <= |rows|
        invariant AllShown(Select(rows[..i], keep), canViewBody, ivSource, codec)
        invariant shown == Details(Select(rows[..i], keep), canViewBody, ivSource, codec)
      {
        var r := rows[i];
        assert rows[..i + 1] == rows[..i] + [r];
        SelectSnoc(rows[..i], r, keep);
        if keep(r) {
          var body := if canViewBody then DecryptField(codec, r.body, ivSource(r)) else Some(r.body);
          if body.None? {
            SelectMembers(rows, keep);
            assert r in Select(rows, keep);
            return None;
          }
          DetailsSnoc(Select(rows[..i], keep), r, canViewBody, ivSource, codec);
          shown := shown + [ShowDetail(r, body.value)];
        }
        i := i + 1;
      }
      assert rows[..i] == rows;
      entries := Some(shown);
    }

    /** `getAllArticlesAsString` */
    method GetAllArticles() returns (result: Listing)
      ensures result == AllArticles(rows)
    {
      var entries, count := ScanSummaries(Everything());
      SelectEveryRow(rows, Everything());
      if count == 0 {
        return NoMatches;
      }
      result := Listed(entries, count);
    }

    /** `getArticlesByGroupsAsString`: a row is listed when its group equals one of
        the given ones. */
    method GetArticlesByGroups(groups: seq<string>, canViewBody: bool) returns (result: Listing)
      ensures result == GroupSearch(rows, SetOf(groups), canViewBody, codec)
    {
      if groups == [] {
        return NoInput;
      }
      assert groups[0] in SetOf(groups);
      var entries := ScanDetails(InGroups(SetOf(groups)), canViewBody, AuthorsIV());
      match entries
      case None =>
        result := DecryptFailed;
      case Some(es) =>
        var count := |es|;
        if count == 0 {
          return NoMatches;
        }
        result := Listed(es, count);
    }

    /** `new ArrayList<>(user.getGroups())`: the groups in some order. */
    static method ListOf(groups: set<string>) returns (list: seq<string>)
      ensures SetOf(list) == groups
    {
      list := [];
      var remaining := groups;
      while remaining != {}
        invariant SetOf(list) + remaining == groups
        decreases remaining
      {
        var g :| g in remaining;
        list := list + [g];
        remaining := remaining - {g};
      }
    }

    /** `displayAllArticles`: everything in list form for a special user; for anyone
        else the articles of their own groups, bodies decrypted for an Instructor. */
    method DisplayAllArticles(user: Users.User) returns (result: Listing)
      ensures result == DisplayAll(rows, user.isSpecial, user.groups, user.HasRole("Instructor"), codec)
    {
      if user.isSpecial {
        result := GetAllArticles();
      } else {
        var canViewBody := user.HasRole("Instructor");
        var groups := ListOf(user.groups);
        result := GetArticlesByGroups(groups, canViewBody);
      }
    }

    /** `getArticlesByIdentifiersAsString` */
    method GetArticlesByIdentifiers(terms: seq<string>) returns (result: Listing)
      ensures result == IdentifierSearch(rows, terms)
    {
      if terms == [] {
        return NoInput;
      }
      var entries, count := ScanSummaries(IdentifierAmong(terms));
      if count == 0 {
        return NoMatches;
      }
      result := Listed(entries, count);
    }

    /** `getArticlesByContentLevelAsString`: "All" is the caller's own view of the
        table; any other level lists its rows with their count, zero included. */
    method GetArticlesByContentLevel(level: string, user: Users.User) returns (result: Listing)
      ensures level == "All" ==> result == DisplayAll(rows, user.isSpecial, user.groups, user.HasRole("Instructor"), codec)
      ensures level != "All" ==> result == LevelSearch(rows, level)
    {
      if level == "All" {
        result := DisplayAllArticles(user);
        return;
      }
      var entries, count := ScanSummaries(LevelIs(level));
      result := Listed(entries, count);
    }

    /** `getArticlesByAuthorAsString` */
    method GetArticlesByAuthor(author: string) returns (result: Listing)
      ensures result == AuthorSearch(rows, author)
    {
      var entries, count := ScanSummaries(AuthorsHave(author));
      result := Listed(entries, count);
    }

    /** `getArticlesByTitleAsString` */
    method GetArticlesByTitle(phrase: string) returns (result: Listing)
      ensures result == TitleSearch(rows, phrase)
    {
      if IsBlank(phrase) {
        return NoInput;
      }
      var entries, count := ScanSummaries(TitleHas(Trim(phrase)));
      if count == 0 {
        return NoMatches;
      }
      result := Listed(entries, count);
    }

    /** `getArticlesByAbstractAsString` */
    method GetArticlesByAbstract(phrase: string) returns (result: Listing)
      ensures result == AbstractSearch(rows, phrase)
    {
      if IsBlank(phrase) {
        return NoInput;
      }
      var entries, count := ScanSummaries(AbstractHas(Trim(phrase)));
      if count == 0 {
        return NoMatches;
      }
      result := Listed(entries, count);
    }

    /** `getMoreInfoForArticleAsString` as written (IV from the decimal id). */
    method GetMoreInfo(id: int, canViewBody: bool) returns (result: Listing)
      ensures result == MoreInfo(rows, id, canViewBody, codec)
    {
      var entries := ScanDetails(IdIs(id), canViewBody, IdIV());
      result := if entries.None? then DecryptFailed else Report(entries.value);
    }

    /** The detail view with the IV taken from the authors, as the body was sealed. */
    method GetMoreInfoCorrected(id: int, canViewBody: bool) returns (result: Listing)
      ensures result == MoreInfoCorrected(rows, id, canViewBody, codec)
    {
      var entries := ScanDetails(IdIs(id), canViewBody, AuthorsIV());
      result := if entries.None? then DecryptFailed else Report(entries.value);
    }

    /** `deleteArticle`: removes the row with that id when one exists. */
    method DeleteArticle(id: int) returns (deleted: bool)
      requires Valid()
      modifies this
      ensures Valid()
      ensures deleted <==> old(HasId(rows, id))
      ensures rows == Select(old(rows), IdIsNot(id)) && nextId == old(nextId)
      ensures forall r :: r in rows <==> r in old(rows) && r.id != id
    {
      deleted := DoesArticleExistWithId(id);
      if deleted {
        rows := Select(rows, IdIsNot(id));
      } else {
        SelectEveryRow(rows, IdIsNot(id));
      }
      SelectMembers(old(rows), IdIsNot(id));
      SelectKeepsIdsUnique(old(rows), IdIsNot(id));
    }

    /** `deleteArticlesByIdentifier`: removes every row with that identifier and
        reports how many went. */
    method DeleteArticlesByIdentifier(identifier: string) returns (removed: nat)
      requires Valid()
      modifies this
      ensures Valid()
      ensures removed == Count(old(rows), IdentifierIs(identifier))
      ensures rows == Select(old(rows), IdentifierIsNot(identifier)) && nextId == old(nextId)
      ensures |rows| == |old(rows)| - removed
      ensures forall r :: r in rows <==> r in old(rows) && r.identifier != identifier
    {
      removed := Count(rows, IdentifierIs(identifier));
      if removed > 0 {
        rows := Select(rows, IdentifierIsNot(identifier));
      } else {
        CountPositive(rows, IdentifierIs(identifier));
        SelectEveryRow(rows, IdentifierIsNot(identifier));
      }
      SelectMembers(old(rows), IdentifierIsNot(identifier));
      SelectKeepsIdsUnique(old(rows), IdentifierIsNot(identifier));
      SelectPartition(old(rows), IdentifierIs(identifier), IdentifierIsNot(identifier));
    }

    /** `updateArticle`: rewrites every column of the row with that id (the body
        sealed anew under the new authors); an unknown id changes nothing. */
    method UpdateArticle(id: int, a: Article)
      requires Valid()
      modifies this
      ensures Valid()
      ensures rows == Updated(old(rows), id, Stored(id, a, codec)) && nextId == old(nextId)
      ensures old(HasId(rows, id)) ==> Stored(id, a, codec) in rows
      ensures !old(HasId(rows, id)) ==> rows == old(rows)
    {
      var row := Stored(id, a, codec);
      UpdatedRows(rows, row);
      rows := Updated(rows, id, row);
      forall r | r in rows ensures r.id < nextId {
        var i :| 0 <= i < |rows| && rows[i] == r;
        assert old(rows)[i] in old(rows);
      }
    }

    /** `clearDatabase`: every row goes; the identity counter is not reset. */
    method ClearDatabase()
      requires Valid()
      modifies this
      ensures Valid()
      ensures rows == [] && nextId == old(nextId)
    {
      rows := [];
    }

    /** `getBody`: the stored (encrypted) body of the row with that id, or None for
        the "No articles found" message. */
    function GetBody(id: int): (body: Option<string>)
      reads this
      ensures body.Some? <==> HasId(rows, id)
      ensures body.Some? ==> exists r :: r in rows && r.id == id && r.body == body.value
    {
      var matching := Select(rows, IdIs(id));
      SelectMembers(rows, IdIs(id));
      CountPositive(rows, IdIs(id));
      if matching == [] then None
      else
        assert matching[0] in matching;
        Some(matching[0].body)
    }

    /** `getAllSystemInfo` as written: a group is added only when the set already
        holds it, so the set stays empty. */
    method GetAllSystemInfo() returns (groups: set<string>)
      ensures groups == {}
    {
      groups := {};
      var i := 0;
      while i < |rows|
        invariant 0 <= i <= |rows|
        invariant groups == {}
      {
        var systemInfo := rows[i].systemInfo;
        if systemInfo in groups {
          groups := groups + {systemInfo};
        }
        i := i + 1;
      }
    }

    /** The set of groups in use, as the method's documentation promises. */
    method GetAllSystemInfoCorrected() returns (groups: set<string>)
      ensures groups == SystemInfos(rows)
    {
      groups := {};
      var i := 0;
      while i < |rows|
        invariant 0 <= i <= |rows|
        invariant groups == SystemInfos(rows[..i])
      {
        assert rows[..i + 1] == rows[..i] + [rows[i]];
        groups := groups + {rows[i].systemInfo};
        i := i + 1;
      }
      assert rows[..i] == rows;
    }

    /** `backupArticles`: one line per row, in storage order. */
    method BackupArticles() returns (lines: seq<string>)
      ensures lines == BackupLines(rows)
    {
      lines := [];
      var i := 0;
      while i < |rows|
        invariant 0 <= i <= |rows|
        invariant lines == BackupLines(rows[..i])
      {
        assert rows[..i + 1] == rows[..i] + [rows[i]];
        BackupLinesSnoc(rows[..i], rows[i]);
        lines := lines + [BackupLine(rows[i])];
        i := i + 1;
      }
      assert rows[..i] == rows;
    }

    /** `backupArticlesByGroup`: the lines of the rows whose group is `group`. */
    method BackupArticlesByGroup(group: string) returns (lines: seq<string>)
      ensures lines == BackupLines(Select(rows, GroupIs(group)))
    {
      lines := [];
      var i := 0;
      while i < |rows|
        invariant 0 <= i <= |rows|
        invariant lines == BackupLines(Select(rows[..i], GroupIs(group)))
      {
        assert rows[..i + 1] == rows[..i] + [rows[i]];
        SelectSnoc(rows[..i], rows[i], GroupIs(group));
        if rows[i].systemInfo == group {
          BackupLinesSnoc(Select(rows[..i], GroupIs(group)), rows[i]);
          lines := lines + [BackupLine(rows[i])];
        }
        i := i + 1;
      }
      assert rows[..i] == rows;
    }

    /** The insert loop of `restoreArticles` over a cleared table: each line's row is
        inserted under its own id (the counter moves past it) until a line throws. */
    method RestoreLines(lines: seq<string>, keepEmptyFields: bool) returns (complete: bool)
      requires Valid()
      modifies this
      ensures Valid()
      ensures Restoration(rows, complete) == Restore(lines, keepEmptyFields)
      ensures nextId >= old(nextId)
    {
      rows := [];
      complete := true;
      var i := 0;
      while i < |lines|
        invariant 0 <= i <= |lines|
        invariant Valid() && nextId >= old(nextId)
        invariant Restoration(rows, true) == Restore(lines[..i], keepEmptyFields)
      {
        var parsed := ParseWith(lines[i], keepEmptyFields);
        if parsed.None? || HasId(rows, parsed.value.id) {
          RestoreHalts(lines, i, keepEmptyFields, rows);
          complete := false;
          return;
        }
        var r := parsed.value;
        RestoreInserts(lines, i, keepEmptyFields, rows, r);
        UniqueIdsSnoc(rows, r);
        rows := rows + [r];
        nextId := if r.id + 1 > nextId then r.id + 1 else nextId;
        i := i + 1;
      }
      assert lines[..i] == lines;
    }

    /** `restoreArticles` as written (`split(",")`). */
    method RestoreArticles(lines: seq<string>) returns (complete: bool)
      requires Valid()
      modifies this
      ensures Valid()
      ensures Restoration(rows, complete) == Restore(lines, false)
      ensures nextId >= old(nextId)
    {
      complete := RestoreLines(lines, false);
    }

    /** `restoreArticles` with every field kept, so that an empty group is restored
        as "general". */
    method RestoreArticlesCorrected(lines: seq<string>) returns (complete: bool)
      requires Valid()
      modifies this
      ensures Valid()
      ensures Restoration(rows, complete) == Restore(lines, true)
      ensures nextId >= old(nextId)
    {
      complete := RestoreLines(lines, true);
    }
  }
}
