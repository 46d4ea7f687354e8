# Terms, officer groups, courses and exam forms — a Dafny model

This project models the core of a student organisation's web site (a Django
application) in Dafny and proves properties of the model:

- **Terms** (`terms.dfy`, module `Terms`). A term is a season and a year whose
  primary key is `year * 10 + season digit`. The model covers:
  - the consistency check and the "one current term" rule of `Term.save`;
  - the six comparison operators;
  - the URL name `fa2012`;
  - the manager queries `get_current_term`, `get_terms` and `get_by_url_name`.

  The term table is a sequence of rows in primary-key order.
- **Officer groups** (`officers.dfy`, module `Officers`). These are the
  authentication groups an officer position implies in a term. The model
  covers:
  - adding a user to those groups when an officer record is saved;
  - removing a user from the groups no other record still implies when a
    record is deleted;
  - the regrouping that saving a current term performs.

  The central invariant is `Covered`: every user belongs to every group their
  officer records imply.
- **Courses** (`courses.dfy`, module `Courses`). The model covers:
  - normalisation of departments and courses on save;
  - the course ordering by department abbreviation, then integer part, then
    letter suffix, then prefix, then hyphen number;
  - the name formatters of courses and instructors.
- **Exam forms** (`exam_forms.dfy`, module `ExamForms`). The model covers:
  - resolving or creating the course instance an exam belongs to;
  - duplicate detection on upload and on edit;
  - the PDF check;
  - what `save` writes;
  - the upload form's exam number choices.

`results.dfy` holds `Option`, `Result` and `Fetch`. `Fetch` is the outcome of
a Django `get`: `DoesNotExist`, `Found` or `MultipleObjectsReturned`.
`text.dfy` holds the string functions the code relies on: upper-casing,
stripping, decimal printing and parsing, lexicographic order, substrings and
joins.

The external effects are passed in as parameters:
- `slugify` is a function parameter of `SaveDepartment`;
- the detected mimetype is a function parameter of `CleanExamFile`;
- the `TERM_TYPE` setting is a string parameter of `GetTerms`.

## Model

| member | source | states |
|---|---|---|
| Terms.Code | base/models.py:123-129 | every season's code is two characters long |
| Terms.Index | base/models.py:200-202 | the season's digit in the primary key is below 5, so it fits the key's last decimal place |
| Terms.SeasonOfCode | base/models.py:116-129 | decoding a two-letter season code is the inverse of the code table: it finds exactly the season with that code |
| Terms.IndexInjective | base/models.py:130-136 | the season-to-digit mapping gives different seasons different digits |
| Terms.Pk | base/models.py:197-202 | the primary key's `// 10` is the year and its `% 10` is the season digit |
| Terms.IdAgrees | base/models.py:158-161 | an id that passes the consistency test is non-negative and has the term's year as its `// 10` and the season digit as its `% 10` |
| Terms.IdAgreesIffPk | base/models.py:160-165 | the consistency test of `save` accepts an id exactly when it equals the computed primary key |
| Terms.PkInjective | base/models.py:197-202 | two terms have the same key iff they have the same season and year |
| Terms.UrlName | base/models.py:184-186 | the URL name is the two-letter season code followed by `str(year)` (canonical decimal, see Text.Decimal), which parses back to the year |
| Terms.Less | base/models.py:204-213 | `__lt__` (year, then season) holds iff the first term's primary key is smaller |
| Terms.Equal | base/models.py:221-225 | `__eq__` (same season and year) holds iff the primary keys are equal |
| Terms.LessEq | base/models.py:215-219 | `__le__` holds iff less or equal |
| Terms.Greater | base/models.py:233-237 | `__gt__` holds iff the first term's primary key is larger |
| Terms.GreaterEq | base/models.py:239-243 | `__ge__` holds iff greater or equal |
| Terms.NotEqual | base/models.py:227-231 | `__ne__` holds iff strictly less or strictly greater |
| Terms.PkDeterminesRow | base/models.py:261-263 | in a table ordered by primary key, one key names at most one row |
| Terms.Upsert | base/models.py:175 | writing a row keeps the table ordered; the new table holds the written row and every old row with a different key |
| Terms.ClearOtherCurrent | base/models.py:172-174 | the table keeps its length and every row keeps every field except `current`; a row is current afterwards iff it was current before and has the saved key |
| Terms.Save | base/models.py:147-178 | the unknown year-0 placeholder is ignored; `save` fails iff an id is set that disagrees with season and year; otherwise the row is stored under its computed key and the table stays ordered and consistent |
| Terms.SaveFrame | base/models.py:168-174 | a current save leaves the saved row as the only current one; every other row keeps its fields except `current`, and a non-current save leaves other rows untouched |
| Terms.SaveKeepsOneCurrent | base/models.py:147-178 | if at most one term was current before a save, at most one is current after it |
| Terms.GetCurrentTerm | base/models.py:51-62 | it finds the one current row, or none exactly when no row is current; in a table with at most one current row it never finds several |
| Terms.Reversed | base/models.py:84-85 | `order_by('-id')` keeps the length and the rows, and turns an ascending table into a descending one |
| Terms.GetTerms | base/models.py:64-87 | it fails iff future terms are excluded and the current-term lookup finds several rows. Otherwise it returns exactly the rows whose season passes the unknown/summer/semester-winter filters and, when future terms are excluded and a current term exists, whose key is at most the current term's key. The result is ascending, or descending when `reverse` |
| Terms.SeasonListed | base/models.py:69-77 | unknown and summer terms are listed only when asked for, and winter never under a semester system |
| Terms.DefaultListing | base/models.py:64-77 | with the default arguments, a quarter system lists winter, spring and fall, and a semester system spring and fall |
| Terms.Where | base/models.py:69-81 | a queryset filter keeps exactly the rows that pass, in table order, so a key-ordered table stays ordered |
| Terms.Get | base/models.py:96-99 | the lookup by season and year finds the matching row or reports that none exists |
| Terms.GetByUrlName | base/models.py:89-102 | a non-string gives none; a name whose year part is not a decimal number gives none; a term found has the name's first two characters as its code and the rest as its year; and whenever a stored term has that code and year, one is found |
| Terms.UrlNameRoundTrip | base/models.py:89-102 | looking up a stored term's URL name finds that term |
| Officers.CorrespondingGroups | base/models.py:299-340 | the groups are the long name first, then "Officer" unless auxiliary and "Executive" if executive, each with its "Current " twin exactly when the term is current |
| Officers.IsCurrentTerm | base/models.py:317 | a missing term is never current; a present term is current as its flag says |
| Officers.PositionName | base/models.py:364-368 | the position name starts with the long name, and is longer, with suffix " Chair", exactly for a chair |
| Officers.TermOf | base/models.py:343-351 | an officer's term is the stored row with that key, or none exists |
| Officers.AddUserToOfficerGroups | base/models.py:370-375 | the user gains every implied group, keeps the old ones and gains nothing else; other users are unchanged |
| Officers.RemoveUserFromOfficerGroups | base/models.py:377-403 | it only removes groups. Every group another record of the user still implies is kept, and so is every group this record does not imply. A group only this record implied is removed. Other users are unchanged |
| Officers.ImpliedForMember | base/models.py:392-396 | the groups the user's remaining records imply include each record's own groups |
| Officers.AddOfficer | base/models.py:406-410 | saving an officer record stores it in place of any record with the same user, position and term (an edit) and leaves every other record; the terms stay; the record's user gains exactly the groups it implies and loses none; every other user's groups are unchanged |
| Officers.AddOfficerKeepsSlotsUnique | base/models.py:353-354 | saving keeps at most one record per (user, position, term), and the saved record is the one left for its triple |
| Officers.DeleteOfficer | base/models.py:413-417 | deleting an officer record removes it from the records and leaves the terms alone; the user loses every group the record implies that no remaining record of theirs implies, and keeps every other group; every other user's groups are unchanged |
| Officers.AddOfficerKeepsCover | base/models.py:406-410 | saving an officer record (with its post-save signal) keeps every user in all implied groups |
| Officers.DeleteOfficerKeepsCover | base/models.py:413-417 | deleting an officer record (with its post-delete signal) keeps every user in all groups their remaining records imply |
| Officers.InTerm | base/models.py:257 | `Officer.objects.filter(term=self)` picks out of the records exactly those whose term key is the term's id; none for an unsaved term |
| Officers.MentionsCurrent | base/models.py:252 | the groups a current-term save clears are those whose name contains "Current", case-sensitively |
| Officers.UpdateTermOfficerGroups | base/models.py:245-259 | a non-current term changes nothing. After a current term is saved, a user is in a group mentioning "Current" iff an officer record of that term implies it; other groups are kept and the term's officers gain their groups |
| Officers.SaveTerm | base/models.py:147-178 | `save` composed with the group update: it fails iff the row save fails; on success the terms are the row save's table and the officer records are unchanged; a non-current save keeps the groups; after a current save a user is in a "Current" group iff one of their records for the saved term implies it, and in any other group iff they were already or such a record implies it |
| Officers.SaveKeepsOtherTermsCurrency | base/models.py:168-172 | after a save, a term other than the saved one is current only if it was current before and the saved term is not current |
| Officers.SaveTermCoversOfficer | base/models.py:245-259 | when its position name does not mention "Current", one officer record keeps all its implied groups across a term save |
| Officers.SaveTermKeepsCover | base/models.py:245-259 | when no position name contains "Current", a term save keeps every user in every group their records imply |
| Officers.SaveTermDropsCurrentNamedGroup | base/models.py:250-254 | a concrete table where a past holder of a position named "Current Affairs" loses that group when a new current term is saved |
| Officers.UpdateTermOfficerGroupsCorrected | base/models.py:245-259 | the corrected update: the "Current" groups hold exactly what the users' officer records imply, and every other group is kept |
| Officers.SaveTermCorrected | base/models.py:147-178 | `save` with the corrected group update: the same failure, table and officer records as `save`; after a current save a user is in a "Current" group iff any of their records implies it, and in any other group iff they were already or a record implies it |
| Officers.SaveTermCorrectedKeepsCover | base/models.py:147-178 | with the corrected update a term save keeps every user in every implied group, whatever the positions are called |
| Courses.SaveDepartment | courses/models.py:36-39 | the slug comes from the short name; the abbreviation becomes the upper-cased slice of the old one that is left after removing whitespace from both ends, all of it and nothing else; the other fields are unchanged |
| Courses.SaveDepartmentIdempotent | courses/models.py:36-39 | saving a department twice gives the same department as saving it once |
| Courses.SlugFromShortNameOnly | courses/models.py:37 | two departments with the same short name get the same slug |
| Courses.SaveCourse | courses/models.py:148-150 | the number becomes the upper-cased slice of the old one that is left after removing whitespace from both ends, all of it and nothing else; department and title are unchanged |
| Courses.SaveCourseIdempotent | courses/models.py:148-150 | saving a course twice gives the same course as saving it once |
| Courses.SplitHyphen | courses/models.py:64-69 | `split('-', 1)` gives the text before the first hyphen and, if there is one, the text after it; joining them with a hyphen gives back the number |
| Courses.WellFormedHasDigit | courses/models.py:64-72 | a number `__lt__` can parse (a decimal hyphen suffix if any, and digits once letters are stripped from the prefix's ends) contains a digit |
| Courses.Key | courses/models.py:61-75 | the key's base is the text before the first hyphen; its hyphen number is the suffix's value, or 0 without a hyphen |
| Courses.KeyFields | courses/models.py:71-74 | the key's integer is the value of the base with letters stripped from both ends; its postfix is the base with the leading letters stripped |
| Courses.WellFormedNumber | courses/models.py:64-72 | the comparison can parse a number when the text after the first hyphen, if any, and the text before it with letters stripped from both ends are digit strings |
| Courses.IntPart | courses/models.py:71 | the integer part is the value of some strip of the letters at both ends of the text before the hyphen |
| Courses.HyphenValue | courses/models.py:64-69 | the hyphen value is the parsed text after the first hyphen, or 0 without a hyphen |
| Courses.NumberLess | courses/models.py:77-94 | the number comparison is lexicographic on integer part, then postfix, then prefix, then hyphen number |
| Courses.Less | courses/models.py:51-94 | `__lt__` between courses is lexicographic: department abbreviation first, then the number comparison |
| Courses.NumberLessTrichotomy | courses/models.py:77-94 | the number comparison is irreflexive and asymmetric; any two distinct number keys are ordered one way or the other |
| Courses.NumberLessTransitive | courses/models.py:77-94 | the number comparison is transitive |
| Courses.LessIrreflexive | courses/models.py:51-94 | no course is less than itself |
| Courses.LessTrichotomy | courses/models.py:51-94 | for two comparable courses exactly one holds: `a < b`, `b < a`, or the two have the same abbreviation and number key |
| Courses.LessTransitive | courses/models.py:51-94 | `__lt__` is transitive on any three courses on whose every pair it is defined (numbers need to parse only where abbreviations tie) |
| Courses.Lt | courses/models.py:51-53 | `<` holds iff the other operand is a course that is neither of the same rank nor less |
| Courses.Le | courses/models.py:96-99 | `<=` holds iff the other operand is a course and this course is less or of the same rank |
| Courses.Gt | courses/models.py:110-113 | `>` holds iff the other operand is a course, this one is not less and not of the same rank |
| Courses.Ge | courses/models.py:115-118 | `>=` holds iff the other operand is a course that is less or of the same rank |
| Courses.Eq | courses/models.py:101-105 | `==` holds only against a course with the same number |
| Courses.Ne | courses/models.py:107-108 | `!=` is true against a non-course; a course it rejects has the same number |
| Courses.EqualCoursesAreUnordered | courses/models.py:51-118 | equal courses are neither less nor greater than each other, and are both `<=` and `>=` |
| Courses.LeTotal | courses/models.py:96-99 | `<=` is total on comparable courses |
| Courses.Abbreviation | courses/models.py:123-128 | the abbreviation is the short name, a space, then the number |
| Courses.AbbreviationInjective | courses/models.py:123-128 | with space-free short names, the abbreviation determines short name and number |
| Courses.DisplayName | courses/models.py:130-135 | the display name is the long name, a space, then the number |
| Courses.DisplayNameInjective | courses/models.py:130-135 | with space-free numbers, the display name determines long name and number |
| Courses.CourseUrlName | courses/models.py:137-142 | the URL name is the slug directly followed by the number |
| Courses.CourseUrlNameInjectiveInDepartment | courses/models.py:137-142 | within one department, the URL name determines the number |
| Courses.FullName | courses/models.py:168-169 | the full name is the first name, a space, then the last name |
| Courses.FullNameInjective | courses/models.py:168-169 | with space-free first names, the full name determines both names |
| Courses.LastNameFirst | courses/models.py:171-178 | with no first name it is the last name; otherwise it is "last, first" |
| Courses.LastNameFirstInjective | courses/models.py:171-178 | with comma-free last names and first names present, "last, first" determines both names |
| ExamForms.FindCourse | exams/forms.py:49-50 | a course is found iff a department is given and the catalogue has that department and number |
| ExamForms.MatchingIds | exams/forms.py:75-81 | the ids, ascending, of exactly the stored instances with the given term, course and instructor set; none iff no instance matches |
| ExamForms.AtMostOneMatch | exams/forms.py:82-83 | among instances without repeats at most one matches, so the `.get()` never sees two |
| ExamForms.SetCourseInstance | exams/forms.py:40-89 | "Invalid course" iff the course is missing; "Please fill out all fields." iff the course exists and no instructor is given; with instructors, "Ineligible exam" iff some instructor's record does not allow uploads. When none of those applies, it succeeds iff at most one stored instance matches and otherwise fails with `MultipleObjectsReturned`. On success the chosen instance matches term, course and instructors exactly; only instances change, by appending at most one, and the store is unchanged iff a matching instance already existed |
| ExamForms.SetCourseInstanceKeepsDistinct | exams/forms.py:75-88 | the find-or-create never raises MultipleObjectsReturned on a store without repeated instances, and keeps instances unrepeated and exams pointing at stored instances |
| ExamForms.IsDuplicate | exams/forms.py:127-130 | a stored exam duplicates the input when course instance, exam number and exam type all agree |
| ExamForms.UploadClean | exams/forms.py:123-134 | upload validation fails as `set_course_instance` does, and fails otherwise only with the duplicate error, exactly when a stored exam has the same instance, number and type; on success it returns what `set_course_instance` did |
| ExamForms.EditClean | exams/forms.py:161-176 | edit validation fails as `set_course_instance` does, and fails otherwise only with its duplicate error, exactly when an exam other than the one being edited has the same instance, number and type; on success it returns what `set_course_instance` did |
| ExamForms.DuplicateUploadCreatesNothing | exams/forms.py:123-134 | when an upload is rejected as a duplicate, `set_course_instance` created no instance |
| ExamForms.ResaveUnchangedExam | exams/forms.py:150-176 | an exam re-submitted unchanged through the edit form is accepted with its own instance and no store change, while the upload form rejects the same data as a duplicate |
| ExamForms.AttachCourseInstance | exams/forms.py:91-94 | `save` sets the exam's course instance and changes nothing else |
| ExamForms.RefusedIsDenied | exams/forms.py:136-143 | the save's test (`permission_allowed is False`) implies the clean's test (`not permission_allowed`); they differ exactly on a record whose flag is unset |
| ExamForms.Denied | exams/forms.py:67-68 | an instructor refuses when a permission record exists and its flag is not true (false or unset) |
| ExamForms.RefusedExplicitly | exams/forms.py:141 | an instructor is blacklisted only when a permission record exists and its flag is false |
| ExamForms.UploadSave | exams/forms.py:136-143 | the upload save blacklists iff the exam was blacklisted or some instructor's record has `permission_allowed` false, and attaches the instance |
| ExamForms.CleanedUploadKeepsBlacklistFlag | exams/forms.py:123-143 | after a successful upload validation, the blacklisting in `save` leaves the flag as it was |
| ExamForms.CleanExamFile | exams/forms.py:116-121 | the file is accepted, unchanged, iff its mimetype is `application/pdf`; otherwise the PDF error is raised |
| ExamForms.UploadExamNumberChoices | exams/forms.py:98-99 | the upload choices are the exam number choices without the first one, in the same order |
| ExamForms.UploadOmitsFirstChoice | exams/forms.py:98-99 | the first ("Unknown") choice is not offered and every other choice still is |
| Text.StripBoundsUnique | courses/models.py:38 | there is only one way to strip a string: any two splits into a stripped prefix, a kept middle and a stripped suffix keep the same middle |
| Text.UpperStripDetermined | courses/models.py:38 | `upper().strip()` is the upper-cased middle of the one whitespace split of the string |
| Text.UpperStripIdempotent | courses/models.py:38 | `upper().strip()` applied twice is the same as applied once |
| Text.ParseDecimal | base/models.py:184-186 | printing a year in decimal and parsing it gives the year back |
| Text.LexLessTransitive | courses/models.py:55-58 | Python's string `<` is transitive |
| Text.LexLessTotal | courses/models.py:55-58 | for two distinct strings, one is less than the other |
| Text.JoinInjectiveLeft | courses/models.py:168-178 | "a + separator + b" determines a and b when a has no separator |
| Text.JoinInjectiveRight | courses/models.py:130-135 | "a + separator + b" determines a and b when b has no separator |
| Text.UpperStrip | courses/models.py:149 | the saved number is the upper-cased text left once `strip()` removes whitespace at both ends, and holds no lower-case letter |
| Text.IsSpace | courses/models.py:149 | `strip()` removes Python 2's Unicode whitespace, none of which is a digit or a letter |
| Text.Decimal | base/models.py:186 | `str(year)` is a non-empty digit string with no leading zero unless it is "0" |
| Text.ParseNat | courses/models.py:71 | `int()` succeeds exactly on a non-empty string of ASCII digits |
| Text.LexLessIff | courses/models.py:55-58 | Python's string `<`: the left string is a proper prefix of the right, or has the smaller character at the first index where they differ |
| Text.ContainsIff | base/models.py:252 | the substring test holds exactly when the text occurs at some index of the name |

## Left out

- Caching: the `current_term` cache in front of `get_current_term` and its update in `Term.save` are left out. The cache is a performance layer; the model always reads the table.
- Transactions: `transaction.atomic` is not modelled. A failed save returns the old state unchanged, which is what a rollback gives.
- Concurrency: concurrent saves are not modelled.
- Comparisons with a non-`Term` operand: in that case the term operators compare against the current year's unknown term, which reads the clock. The model compares two terms only.
- Term codes outside the choices: `Term.term` is an enumeration. A stored code outside the choices, which makes the season-digit lookup raise `KeyError`, is not representable.
- Year range: the year's `PositiveSmallIntegerField` upper bound (32767) is not enforced; years are unbounded naturals.
- Python `int()` parsing: the model accepts ASCII digits only. `int()` also takes surrounding whitespace, a sign and Unicode digits, and `get_by_url_name` passes the year text through it.
- Letters and case mapping: `string.letters` and `upper()` are modelled for ASCII letters only. Python 2 makes `string.letters` locale-dependent and upper-cases non-ASCII letters too. Whitespace for `strip()` is the set Python 2's `unicode.strip()` removes, not only ASCII blanks.
- `Courses.Less`: requires well-formed numbers when the department abbreviations are equal, i.e. digits only once letters are stripped and a digits-only hyphen suffix. This excludes some numbers the source compares without error, because `int()` also accepts surrounding whitespace and a sign ("61 A" or "61-+1"). On numbers `int()` rejects, `__lt__` raises `ValueError`, which is not modelled either.
- Group rows: `Group.objects.get_or_create` is not modelled. Groups are identified by name and exist whenever named.
- Case of "Current": `name__contains='Current'` is modelled as a case-sensitive substring test. Some database back ends compare case-insensitively.
- Positions and officer record fields: mailing list, rank, ordering, `__str__` and natural keys carry no behaviour here and are omitted.
- Exam models: `exams/models.py` is not part of this model. The exam number choice list is a parameter, and `InstructorPermission` is a map from instructor to the nullable `permission_allowed` flag.
- Unresolved department: a department the form could not resolve is represented as a missing department. A missing course yields "Invalid course" in that case too.
- Field-level error messages: the messages attached to single fields, such as the `does not exist` text and the instructor's name in the permission message, are reduced to the set of field names they are attached to. The form-level messages are modelled exactly.
- `ExamForms.SetCourseInstance`: the queryset filters an annotated instructor count and then each instructor. This is modelled as its intended meaning: the instance's instructor set equals the submitted set. The SQL join behaviour of chaining `annotate` with multi-valued filters is not modelled.
- Course instance deletion: course instances are numbered by position in creation order. Deleting them is not modelled.
- Other forms and save internals: `FlagForm`, `FlagResolveForm`, the form field widgets and labels, and `ModelForm.save`'s own field copying are outside the modelled core.
- The `agreed` checkbox: this required field's validation is Django's, so it is not modelled.
- `Officers.AddOfficer`: officer records carry no primary key, so an edit is modelled as a save with the same user, position and term, which replaces the stored record. An edit that changes a record's user, position or term is modelled as adding a new record; the stale record stays, and so do the groups the old values implied. The source keeps the old groups too, since its post-save handler only adds.
- `Officers.SaveTermKeepsCover`: assumes no position name contains "Current". See Findings: as written, the property fails without that assumption.

## Findings

| source | as written | input that shows it | evidently intended | confidence | as-written member | corrected member |
|---|---|---|---|---|---|---|
| base/models.py:250-254 | saving a current term empties every group whose name contains "Current", then re-adds only the saved term's officers | a position named "Current Affairs" held by a user in Fall 2012; a new current term Winter 2013 is saved, and the user leaves the group "Current Affairs" though their record still implies it | after the "Current" groups are emptied, every officer record's groups are granted again, so holders of a position whose own name contains "Current" keep it; groups outside the officer groups that contain "Current" are still emptied, as written | medium, not executed | Officers.SaveTermDropsCurrentNamedGroup | Officers.SaveTermCorrectedKeepsCover |
