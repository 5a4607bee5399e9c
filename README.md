# Student Help Database — a Dafny model of its article store and role bookkeeping

Student Help Database is a JavaFX desktop application for a course help system. Its
logic lives in a few classes behind the screens:

- `Article`, a handle on an H2 table `articles` of ten-column rows (id, title, authors,
  abstract, keywords, body, references, level, identifier, systemInfo). It registers,
  updates, deletes and clears articles; searches them by group, identifier, level,
  author, title and abstract; shows one article in detail; and backs the table up to a
  comma-separated file and restores it. Bodies are stored encrypted and Base64-encoded,
  with an IV derived from the authors. The `systemInfo` column names the group an
  article belongs to ("general" by default).
- `User`, a mutable account with a role set, a group set (starting as {"general"}),
  three set-only role flags, account-setup and reset switches, a skill level and a
  one-time code.
- The special access group of `SpecialGroup_Interface`: a map from a group name to
  one user. Filing the first Instructor makes them Admin, and removal guards the last
  Admin.
- `Student`, which composes messages of at most 100 words per part, and `Instructor`,
  which checks whether any instructor is registered yet.

The model keeps the shape of the source. The table is a `seq<Row>` field of class
`Store.ArticleDatabase`, next to the auto-increment counter. Each SQL statement is a
filter (`Articles.Select` with a named condition) or an update of that sequence. Each
`while (resultSet.next())` loop is a Dafny `while` loop (`ScanSummaries`,
`ScanDetails`, the backup and system-info loops). Each loop is proved to return what a
query function of module `Articles` says, and the properties of those functions are
proved as lemmas. A query returns a `Listing`: the entries and the reported count, or
the "no input", "no matches" or "decryption threw" outcome. It is not the formatted
text.

The cipher, the IV derivation and Base64 are not part of this model. They are the
fields of a `Cipher.Codec` value. The store relies only on `Cipher.Lawful`: decryption
under the same IV undoes encryption, decoding undoes encoding, and Base64 text holds
no comma. `Cipher.SampleCodec` is a concrete codec that meets these laws (proved).
It supplies the concrete counterexample for the detail-view defect below.

Modules: `Wrappers` (Option), `Text` (Java `trim`, `split("\\s+")`, `split(",")`,
`Integer.parseInt`, `String.valueOf(int)`, `LIKE '%x%'`), `Cipher`, `Users`,
`Articles` (rows, conditions, queries, lemmas), `Backup` (line format, parse,
restore), `Store` (the class), `SpecialGroups`, `Students`, `Instructors`, and
`Screens` (two rules the screens apply on their own).

## Model

| member | source | states |
|---|---|---|
| Users.NewProfile | User.java:50-58 | a new account has no roles, the groups {"general"}, is neither set up nor reset, has no one-time code, no flag raised, and level "intermediate" |
| Users.User.constructor | User.java:50-62 | the constructed account's whole state is NewProfile(userName) |
| Users.User.HasRole | User.java:146-148 | true exactly when the role is in the account's role set |
| Users.User.HasGroup | User.java:334-336 | true exactly when the group is in the account's group set |
| Users.User.AddRole | User.java:127-129 | only the role set changes, by adding the role; hasRole(role) holds after; adding a held role changes nothing |
| Users.User.RemoveRole | User.java:136-138 | only the role set changes; hasRole(role) is false after; every other role is kept |
| Users.User.AddGroup | User.java:315-317 | only the group set changes, by adding the group; hasGroup holds after; adding a held group changes nothing |
| Users.User.RemoveGroup | User.java:324-326 | only the group set changes; hasGroup is false after; every other group is kept |
| Users.User.SetIsAdmin | User.java:244-246 | raises isAdmin and changes nothing else, the role set included |
| Users.User.SetIsStudent | User.java:260-262 | raises isStudent and changes nothing else |
| Users.User.SetIsInstructor | User.java:276-278 | raises isInstructor and changes nothing else |
| Users.User.SetIsSpecial | User.java:298-303 | sets isSpecial to the argument and changes nothing else |
| Users.User.FinishAccountSetup | User.java:180-182 | sets accountSetUp and changes nothing else |
| Users.User.DoReset | User.java:196-198 | sets reset and changes nothing else |
| Users.User.UndoReset | User.java:203-205 | clears reset and changes nothing else |
| Users.User.SetLevel | User.java:285-287 | for 0 <= i < 4 the level becomes the i-th of beginner/intermediate/advanced/expert; any other index throws (ok is false) and changes nothing |
| Users.User.SetOTC | User.java:226-230 | the one-time code becomes "123"; nothing else changes |
| Cipher.EncryptBody | Article.java:123-125 | a body sealed under the IV of a source decrypts back to itself under that source, and its Base64 text has no comma |
| Cipher.DecryptField | Article.java:680-685 | a field that is not Base64 gives the exception (none); under a lawful codec, the Base64 of a text encrypted under the IV of a source decrypts back to that text under the same source |
| Cipher.SameIVOpens | Article.java:680-685 | a sealed body opens under any source that derives the same IV |
| Cipher.SampleCodecIsLawful | Article.java:680-685 | the laws the store relies on can be met: the sample codec satisfies them |
| Cipher.SampleForeignIVFails | Article.java:529 | with the sample codec, a body does not open under an IV source of another length |
| Articles.Stored | Article.java:118-141 | the inserted row carries the article's fields, the group "general" when none is given, and a body that is the sealed text under the authors and opens back to the plaintext |
| Articles.SelectMembers | Article.java:146-195 | a row is selected exactly when it is stored and meets the WHERE condition |
| Articles.SelectAppend | Article.java:255-331 | selection keeps storage order |
| Articles.SelectEveryRow | Article.java:217-246 | a condition that every row meets selects the whole table |
| Articles.CountPositive | Article.java:146-195 | COUNT(*) > 0 holds exactly when some row meets the condition |
| Articles.SelectKeepsIdsUnique | Article.java:577-629 | selecting rows never repeats an id |
| Articles.SelectPartition | Article.java:603-629 | the rows a condition keeps and the rows it drops add up to the table |
| Articles.UpdatedRows | Article.java:634-659 | UPDATE by id replaces the row with that id, keeps every id and every other row, keeps ids unique, and changes nothing when the id is not stored |
| Articles.Report | Article.java:238-243 | a listed result is non-empty and its count is the number of entries |
| Articles.AllArticles | Article.java:217-246 | a listing exactly when the table is not empty, counting every row; otherwise "No articles found in the database." |
| Articles.GroupSearch | Article.java:255-331 | "No groups provided." exactly when the group list is empty; a listing is never empty and counts its entries |
| Articles.IdentifierSearch | Article.java:340-383 | "No identifiers provided." exactly when the list is empty; never a decryption failure (no body is decrypted); a listing is never empty and counts its entries |
| Articles.LevelSearch | Article.java:392-412 | always a listing, zero rows included, whose count is the number of rows at that level |
| Articles.AuthorSearch | Article.java:416-440 | always a listing, zero rows included, whose count is the number of rows whose authors contain the text |
| Articles.TitleSearch | Article.java:442-477 | "No search phrase provided." exactly when the phrase is blank; never a decryption failure (no body is decrypted); a listing is never empty and counts its entries |
| Articles.AbstractSearch | Article.java:479-513 | "No search phrase provided." exactly when the phrase is blank; never a decryption failure (no body is decrypted); a listing is never empty and counts its entries |
| Articles.DisplayAll | Article.java:197-215 | for a special user, a listing exactly when the table is not empty, else "no matches"; for anyone else, "No groups provided." exactly when they are in no group |
| Articles.MoreInfo | Article.java:516-571 | never the "no input" outcome, since the detail view has no such message; a listing is never empty and counts its entries |
| Articles.MoreInfoCorrected | Article.java:516-571 | the same outcomes for the corrected detail view |
| Articles.GroupSearchFailure | Article.java:280-301 | the group search throws exactly when bodies are to be shown and some row of the listed groups does not decrypt under its authors |
| Articles.GroupSearchLists | Article.java:255-331 | the group search lists exactly the rows whose group is one of the listed ones, counted; "no matches" exactly when no row has such a group; without the right to view bodies each entry shows its row's stored ciphertext |
| Articles.GroupSearchRevealsPlaintext | Article.java:283-296 | with the right to view bodies, a row sealed under its authors is shown with its plaintext |
| Articles.DisplayAllVisibility | Article.java:197-215 | a special user sees every row; anyone else never sees a row outside their groups, and sees every row of their groups unless a decryption throws |
| Articles.SelectIgnoresGroups | Article.java:340-513 | a condition that does not read the group selects the same rows from tables that differ only in groups |
| Articles.TextSearchesIgnoreGroups | Article.java:340-513 | the identifier, level, author, title and abstract searches give the same listing for tables that differ only in groups |
| Articles.TextSearchesMatch | Article.java:340-513 | each text search lists a row exactly when it matches: identifier among the terms, level equal, authors containing the untrimmed author, title or abstract containing the trimmed phrase |
| Articles.SummaryListingMatches | Article.java:217-246 | a list view names a stored row exactly when the row meets the condition |
| Articles.SelectById | Article.java:516-520 | with unique ids, selecting by a stored row's id yields that row alone |
| Articles.RedactedDetailView | Article.java:545-564 | without the right to view bodies, the detail view of a stored id shows that one row with its stored ciphertext |
| Articles.DetailViewRevealsPlaintext | Article.java:516-571 | the corrected detail view of a row sealed under its authors shows the plaintext |
| Articles.DetailViewOfMissingId | Article.java:566-567 | an id that is not stored gives "No articles found" |
| Articles.DetailViewAsWritten | Article.java:529 | as written, after register appends a row to any table with unique ids, the detail view of that row throws whenever its body does not open under the IV of the decimal id |
| Articles.DetailViewAsWrittenFails | Article.java:529 | for a row with id 1 by "Ada Lovelace", the detail view as written throws while the corrected one shows the plaintext |
| Articles.GroupsInUse | Article.java:709-732 | the set of groups in use holds every row's group and is empty only for an empty table |
| Backup.LineFields | Article.java:746-748 | a backup line has ten fields |
| Backup.ParseLine | Article.java:762-787 | as written, a parsed row comes from at least ten fields of split(","), carries the first field as its id, and never has an empty group |
| Backup.ParseLineCorrected | Article.java:762-787 | the same, with every field kept as split(",", -1) would |
| Backup.Restore | Article.java:762-787 | a restore stores at most one row per line, and exactly one per line when it reads every line |
| Backup.RowOfFields | Article.java:765-786 | a parsed row needs at least ten fields and a decimal 32-bit id in the first, carries that id, and never has an empty group |
| Backup.ParseOfBackupLine | Article.java:765-786 | reading back a row's line gives the row (a blank group read as "general") when no field holds a comma, the id fits 32 bits and the group is not empty |
| Backup.ParseCorrectedOfBackupLine | Article.java:765-786 | the corrected parse reads back every such row, an empty group included |
| Backup.ParseOfEmptyGroupFails | Article.java:765-767 | as written, the line of a row with an empty group cannot be read back |
| Backup.RestoreOfBackup | Article.java:735-789 | restoring a backup reads every line and gives back the table in order, each blank group read as "general", when ids are unique and fit 32 bits, no field holds a comma, and (as written) no group is empty |
| Backup.RestoreOfGroupBackup | Article.java:791-818 | restoring a backup by group restores exactly that group's rows |
| Backup.RestoreOfEmptyGroupFails | Article.java:755-789 | as written, a backup whose first row has an empty group restores nothing |
| Backup.RestoreInserts | Article.java:776-786 | a line whose row has a new id is inserted and the restore goes on |
| Backup.RestoreHalts | Article.java:762-787 | a line that does not parse, or whose id is already stored, ends the restore with the rows inserted before it |
| Articles.UniqueIdsSnoc | Article.java:118-141 | a row can be added without repeating a primary key exactly when its id is new |
| Articles.DetailViewOfUnopenedRow | Article.java:529-541 | in any table with unique ids, the detail view throws for a stored row whose body does not open under the IV of its id |
| Backup.RestoreStopsEarly | Article.java:762-787 | once a line throws, the lines after it change nothing |
| Backup.RestoreKeepsIdsUnique | Article.java:776-787 | a restore never stores two rows with one id, nor more rows than lines |
| Store.ArticleDatabase.constructor | Article.java:98-111 | a new database has an empty table |
| Store.ArticleDatabase.Register | Article.java:118-141 | appends exactly one row under a fresh id and leaves the other rows as they were |
| Store.ArticleDatabase.DoesArticleExist | Article.java:146-159 | true exactly when some row has that exact title |
| Store.ArticleDatabase.DoesArticleExistWithId | Article.java:164-177 | true exactly when some row has that id |
| Store.ArticleDatabase.DoesIdentifierExist | Article.java:182-195 | true exactly when some row has that exact identifier |
| Store.ArticleDatabase.ScanSummaries | Article.java:224-241 | the result-set loop returns the summaries of the matching rows in order, and counts them |
| Store.ArticleDatabase.ScanDetails | Article.java:280-322 | the detail loop returns the matching rows with their bodies as the view shows them, or stops at the first body that does not decrypt |
| Store.ArticleDatabase.GetAllArticles | Article.java:217-246 | lists every row, or "no matches" for an empty table |
| Store.ArticleDatabase.GetArticlesByGroups | Article.java:255-331 | an empty group list gives "No groups provided."; otherwise the result is the group search over the listed groups |
| Store.ArticleDatabase.ListOf | Article.java:198-199 | the list holds exactly the user's groups |
| Store.ArticleDatabase.DisplayAllArticles | Article.java:197-215 | a special user gets every row; anyone else gets the group search over their groups, with bodies decrypted only for the Instructor role |
| Store.ArticleDatabase.GetArticlesByIdentifiers | Article.java:340-383 | an empty list gives "No identifiers provided."; otherwise the rows whose identifier is one of the terms |
| Store.ArticleDatabase.GetArticlesByContentLevel | Article.java:385-413 | "All" gives the caller's displayAllArticles view; any other level gives the rows of that level with their count, zero included |
| Store.ArticleDatabase.GetArticlesByAuthor | Article.java:416-440 | the rows whose authors contain the untrimmed text, with their count, zero included |
| Store.ArticleDatabase.GetArticlesByTitle | Article.java:442-477 | a blank phrase gives "No search phrase provided."; otherwise the rows whose title contains the trimmed phrase |
| Store.ArticleDatabase.GetArticlesByAbstract | Article.java:479-513 | a blank phrase gives "No search phrase provided."; otherwise the rows whose abstract contains the trimmed phrase |
| Store.ArticleDatabase.GetMoreInfo | Article.java:516-571 | the detail view of the row with that id, its body decrypted under the IV of the decimal id |
| Store.ArticleDatabase.GetMoreInfoCorrected | Article.java:516-571 | the detail view with the body decrypted under the IV of the authors |
| Store.ArticleDatabase.DeleteArticle | Article.java:577-597 | reports whether the id was stored, and removes exactly the rows with that id |
| Store.ArticleDatabase.DeleteArticlesByIdentifier | Article.java:603-629 | removes exactly the rows with that identifier and reports how many went |
| Store.ArticleDatabase.UpdateArticle | Article.java:634-659 | rewrites the row with that id from the article, the body sealed anew under the new authors; an unknown id changes nothing |
| Store.ArticleDatabase.ClearDatabase | Article.java:666-675 | leaves the table empty |
| Store.ArticleDatabase.GetBody | Article.java:690-707 | the stored body of a row with that id, or none exactly when the id is not stored |
| Store.ArticleDatabase.GetAllSystemInfo | Article.java:712-732 | as written, the result is always the empty set |
| Store.ArticleDatabase.GetAllSystemInfoCorrected | Article.java:709-732 | the set of groups in use |
| Store.ArticleDatabase.BackupArticles | Article.java:735-752 | one backup line per row, in storage order |
| Store.ArticleDatabase.BackupArticlesByGroup | Article.java:791-818 | the backup lines of exactly the rows of that group |
| Store.ArticleDatabase.RestoreLines | Article.java:755-789 | the table afterwards is what Restore gives for the lines, and the ids stay unique |
| Store.ArticleDatabase.RestoreArticles | Article.java:755-789 | the table afterwards is what Restore gives as written (split(",") drops trailing empty fields), and the id counter never moves back |
| Store.ArticleDatabase.RestoreArticlesCorrected | Article.java:765-768 | the same with every field kept, so an empty group becomes "general"; the id counter never moves back |
| SpecialGroups.Registry.constructor | SpecialGroup_Interface.java:37-41 | stores the two maps |
| SpecialGroups.Registry.AddUserTest | SpecialGroup_Interface.java:113-135 | an unknown name changes nothing and returns false; otherwise the user is filed under the group (replacing whoever was there) and joins it; the first user filed in an empty map, if an Instructor, gains the Admin role and flag; anyone else loses the Admin role and keeps the flag |
| SpecialGroups.Registry.RemoveUserTest | SpecialGroup_Interface.java:201-227 | no member with that name: false and no change; a member holding the Admin role while at most one entry is flagged isAdmin: false and no change; otherwise exactly one entry with that name is removed, and no user changes |
| SpecialGroups.Registry.RemoveMember | SpecialGroup_Interface.java:210-218 | the same removal guarded by the isAdmin flag, which keeps at least one flagged member |
| SpecialGroups.AddThenRemove | JunitTests.java:69-81 | a registered user without roles is filed and can then be removed |
| SpecialGroups.AdminThenMember | SpecialGroup_Interface.java:117-128 | an Instructor filed first in an empty map gains the Admin role and flag; a user filed next does not |
| SpecialGroups.DemotedAdmin | SpecialGroup_Interface.java:117-128 | the same Instructor filed again once the map is not empty loses the Admin role and keeps the flag |
| SpecialGroups.LastAdminEscapesGuard | SpecialGroup_Interface.java:210-222 | after that, removal as written takes the only flagged member, leaving none |
| SpecialGroups.LastAdminKept | SpecialGroup_Interface.java:210-222 | after the same steps, the corrected removal refuses and one flagged member stays |
| Text.CountWords | Student.java:61-64 | the word count of any text is at least 1 |
| Text.TokensOfTrim | Student.java:61-64 | trim() never adds a word |
| Text.TokensOfSpaced | Student.java:72-75 | splitting words that each carry a trailing blank gives the words back |
| Text.FirstWordsBound | Student.java:68-76 | the first k words re-joined count at most k words, whatever characters they hold |
| Text.FirstWordsAreKept | Student.java:68-76 | the first k words joined by single blanks split back into exactly those k words |
| Text.SplitOfJoin | Article.java:765 | split(",") undoes joining by commas when no field holds a comma and the last is not empty |
| Text.ParseIntOfIntToString | Article.java:776 | Integer.parseInt undoes printing an int |
| Students.TrimmedToWordsMeaning | Student.java:67-77 | a text within the limit is kept verbatim; a longer one becomes its first maxWords words joined by single blanks, which count exactly maxWords |
| Students.TrimmedToWords | Student.java:67-77 | a text within the limit is returned as is; for a positive limit the result has at most that many words, whatever characters it holds |
| Students.FitToLimit | Student.java:42-50 | a stored subject or description has at most 100 words, and one within the limit is stored as written |
| Students.Message | Student.java:53 | the message is "Subject: " and the subject, then "\nDescription: " and the description, then "\nFrom: " and the sender's name, each part found at its offset |
| Students.Student.constructor | Student.java:18-21 | the student's account starts with the defaults of a new user |
| Students.Student.SendMessage | Student.java:30-58 | a missing or empty subject or description is refused and nothing is stored; otherwise exactly one message "Subject: s\nDescription: d\nFrom: name" is appended, with each part cut to 100 words when longer |
| Students.Student.TrimToMaxWords | Student.java:67-77 | the loop's result is the text itself within the limit, else its first maxWords words re-joined and trimmed |
| Instructors.EmptyHasNoInstructor | Instructor.java:44-52 | an empty user database holds no instructor |
| Instructors.RolelessAccountDoesNotCount | Instructor.java:32-35 | an account without roles, such as a new instructor's own, does not change the answer |
| Instructors.Instructor.constructor | Instructor.java:32-37 | the instructor's own account has the defaults of a new user and so no Instructor role |
| Instructors.Instructor.CheckIfFirstInstructor | Instructor.java:44-52 | true exactly when no user in the database holds the Instructor role |
| Screens.BodyRulesDiffer | Search_Interface.java:236-240 | the two body rules differ exactly for a special user who is not an Instructor; displayAllArticles gives such a user list entries without bodies, while the search screen's group search shows them a body sealed under its authors in plaintext |
| Screens.FormGroup | Article_Interface.java:279-281 | a blank group field becomes "General", which is not the store's "general" |
| Screens.FormDefaultHiddenFromNewUsers | Article_Interface.java:279-281 | an article filed under that default is hidden from every new non-special user |

## Left out

- JDBC, the H2 engine and file I/O. The table is a sequence of rows. A backup file is a sequence of lines, without line breaks. Column widths (VARCHAR(255)) are not enforced.
- Text in fields that holds a line break. Such text would split one backup line into several.
- SQL `LIKE` pattern syntax in the identifier, author, title and abstract searches (Article.java:349, 417, 450, 485). The model matches every term literally: an identifier by equality, the others by substring. In H2 a `%` or `_` in a term is a wildcard. With no ESCAPE clause, H2 takes `\` as the escape character, so `\` makes the next character literal: the identifier term `a\b` matches "ab", not "a\b". An author text or phrase that ends in `\` turns the closing `%` into a literal `%`. An identifier term that ends in `\` is an invalid pattern: H2 throws an SQLException, which `getArticlesByIdentifiersAsString` passes on to its caller. The model gives a listing instead.
- Articles.IdentifierSearch: does not model the exception H2 raises for a term that ends in `\` (the line above). The model returns a listing for such a term.
- The formatted text of every listing (the "ID: … Title: …" lines and the "Total Articles Retrieved" header). A listing is the entries plus the count. The detail view prints no count; there the count is the number of entries.
- Null strings, except the `systemInfo` of an article given to `register` or `updateArticle` (an Option). A null list or phrase takes the same branch as an empty one.
- Store.ArticleDatabase.Register: the id counter is unbounded, so the wrap-around of the 32-bit `id` column is not modelled.
- Store.ArticleDatabase.RestoreLines: after rows are inserted with explicit ids, the counter is taken to move past the largest restored id, as H2's identity column does in its legacy mode. An engine that does not do so makes a later `register` fail on a duplicate key.
- Row order. Every listing and backup follows the order in which rows were inserted. None of the queries has an ORDER BY, and H2 scans a table with an INT primary key in key order. So after a restore of a file with id 2 before id 1, `getAllArticlesAsString` lists id 1 first while the model lists id 2 first.
- Store.ArticleDatabase.Register: `register` and `updateArticle` also write "general" into the caller's own `Article` object when its group is null. That side effect on the argument is not modelled.
- The stored body is never the plaintext. This depends on the cipher itself, which is not part of this model. The model states what the codec laws give: the stored text opens back to the plaintext under the authors' IV.
- The classes EncryptionHelper and EncryptionUtils, and java.util.Base64, are not part of this model. They are the fields of a `Codec`.
- Text.ParseIntOfIntToString: `Integer.parseInt` also accepts non-ASCII Unicode digits. The model accepts ASCII digits only.
- Students.TrimmedToWordsMeaning: the exact word count of a cut text is proved only for words without control characters (U+0000 to U+001F, other than the whitespace characters of `\s`). `trim()` strips those at the ends, and `split("\\s+")` does not split on them.
- Students.Student.SendMessage: the console messages are not modelled. Neither is `getMessageDataset`, which returns the shared list itself; the list is the `messages` field of `MessageDataset`.
- User accessors for password, e-mail and names, `setUserName`, `setRoles` and `setGroups` (which alias a caller's set), and the reset deadline (`deadLine`, `DeadlineGone`, `LocalDateTime`): these hold no logic beyond storing a value.
- The dialog methods of SpecialGroup_Interface, and the other JavaFX screens. Two rules from those screens are kept, in module `Screens`, to compare with the store's rules.
- Which of several entries with the same user name `removeUserTest` finds first depends on hash order. The model leaves that choice open.

## Findings

| source | as written | input that shows it | evidently intended | confidence | as-written member | corrected member |
|---|---|---|---|---|---|---|
| Article.java:529 | the detail view decrypts the body under the IV of the decimal id | a row with id 1 by "Ada Lovelace", sealed under the IV of its authors by `register` (Article.java:124) | decrypt under the IV of the authors, as `register`, `updateArticle` and the group search do (Article.java:124, 285, 640) | not executed; the effect depends on the IV derivation, and with the sample codec the decryption throws | Articles.DetailViewAsWrittenFails | Articles.DetailViewRevealsPlaintext |
| Article.java:722-724 | a group is added only when the set already holds it | any non-empty table | the distinct groups in use, as the comment at Article.java:709-711 says | not executed; high | Store.ArticleDatabase.GetAllSystemInfo | Store.ArticleDatabase.GetAllSystemInfoCorrected |
| SpecialGroup_Interface.java:210-218 | the guard tests the Admin role but counts `isAdmin` flags; `addUserTest` removes the role and keeps the flag | Instructor "ada" filed under "g1" in an empty map, "bob" filed under "g2", "ada" filed under "g1" again, then `removeUserTest("ada", …)` | the last flagged Admin cannot be removed | not executed; high | SpecialGroups.LastAdminEscapesGuard | SpecialGroups.Registry.RemoveMember |
| Article.java:765-767 | `split(",")` drops the empty last field of a row whose group is empty, so `data[9]` throws and the restore stops, with the table already cleared | a row registered with group "" (not null), then backed up and restored | an empty group restored as "general", as the blank test at Article.java:767 intends | not executed; medium | Backup.RestoreOfEmptyGroupFails | Backup.ParseCorrectedOfBackupLine |
