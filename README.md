# Student record store (Task5.java)

This project models the record store behind the Task5 student manager:

- `Student` is a mutable record holding a name, a roll number and a grade.
- `StudentManagementSystem` keeps the students in an ordered `ArrayList` and mirrors that list in the text file `students.txt`, one `name,roll,grade` line per student.

The store has these operations:

- add a student at the end;
- render all students as text;
- remove the first student whose name matches, ignoring case;
- edit one field of the first matching student (option 0 for the name, 1 for the roll number, 2 for the grade);
- write the list to the file;
- read the file back, appending its records.

The project has three modules:

- `JavaLang` (`java_lang.dfy`) covers the Java library behaviour the store relies on:
  - the 32-bit `int` range;
  - `Integer.toString` and `Integer.parseInt`, where `None` stands for a `NumberFormatException`;
  - `String.split(",")`, which drops trailing empty strings;
  - `String.equalsIgnoreCase`.
- `Roster` (`roster.dfy`) holds the value-level meaning of each operation:
  - `Describe` and `Listing` for `getAllStudents`;
  - `FindFirst` and `Removed` for `removeStudent`;
  - `EditRecord` and `Edited` for `editStudent`;
  - `FormatLine` and `SaveLines` for `saveToFile`;
  - `ParseLine`, `Collect` and `ParseLines` for `loadFromFile`.

  It also holds the lemmas about these functions.
- `Task5` (`task5.dfy`) has the two classes:
  - `Student` updates its fields in place.
  - `StudentManagementSystem` keeps a `seq<Student>` field, which its methods reassign as the source's `add` and `remove` change the `ArrayList`.
  - Each method is proved against the `Roster` function of the same operation.

How the model treats the file and exceptions:

- The file is a field `file: Option<seq<string>>`, where `None` means no file exists.
- Whether the file can be opened for writing is fixed per store by `writable`. A failed save leaves the file alone and keeps the change to the list, as the `catch (IOException e)` of `saveToFile` does.
- Exceptions thrown to the caller are results: `Outcome.Threw(NotFound)` for "Student not found.", `Threw(InvalidOption)` for "Invalid option." and `Threw(NumberFormat)` for a `NumberFormatException`.

`loadFromFile` catches only `FileNotFoundException` and `IOException`. A `NumberFormatException` from `Integer.parseInt` therefore leaves the method after the records of the earlier lines were already appended. The model keeps those records and reports the exception.

## Model

| member | source | states |
|---|---|---|
| Task5.Student.constructor | Task5.java:136-140 | a new student holds exactly the given name, roll number and grade |
| Task5.Student.SetName | Task5.java:146-148 | only the name changes, to the given value |
| Task5.Student.SetRollNumber | Task5.java:154-156 | only the roll number changes, to the given value |
| Task5.Student.SetGrade | Task5.java:162-164 | only the grade changes, to the given value |
| Task5.StudentManagementSystem.constructor | Task5.java:168-169 | a new store has an empty list and the given file |
| Task5.StudentManagementSystem.AddStudent | Task5.java:171-174 | exactly one record with the given fields is appended at the end, the earlier records are unchanged, the list keeps distinct objects, and the file then holds one line per record in list order (unchanged when it cannot be written) |
| Task5.StudentManagementSystem.GetAllStudents | Task5.java:176-182 | the text is the listing of the records in list order, one line per record; the list is not changed |
| Task5.StudentManagementSystem.FindStudent | Task5.java:186-192 | the search loop answers the index of the first student whose name equals the given one ignoring case, or none when there is no such student |
| Task5.StudentManagementSystem.RemoveStudent | Task5.java:184-196 | with a match, the list becomes the old list without its first match and the file is rewritten from it; without a match, "Student not found." is thrown and neither the list nor the file changes |
| Task5.StudentManagementSystem.EditStudent | Task5.java:199-223 | with a match and a valid option and value, the first match's chosen field is set and the file is rewritten; on "Student not found.", "Invalid option." or a `NumberFormatException` the records and the file are unchanged; the list keeps the same objects |
| Task5.StudentManagementSystem.SaveToFile | Task5.java:226-234 | a writable file then holds exactly the `name,roll,grade` line of each record, in list order; otherwise the file is unchanged |
| Task5.StudentManagementSystem.LoadFromFile | Task5.java:236-253 | the records the file's lines give are appended after the existing ones, in file order; a missing file adds nothing; a bad number throws after the earlier lines' records were appended |
| Roster.FindFirst | Task5.java:186-192 | the index answered matches ignoring case and no earlier record does; no answer means no record matches |
| Roster.RemovedSpec | Task5.java:184-196 | removal fails, with "Student not found.", exactly when no name matches; otherwise the length drops by one, one match disappears, and putting the removed record back at its index restores the list, so the others keep their order |
| Roster.EditedFailures | Task5.java:199-223 | no match gives "Student not found."; a match with an option outside 0..2 gives "Invalid option."; a match with option 1 or 2 and text that is not an `int` gives `NumberFormatException`, each in both directions |
| Roster.EditedChangesOneField | Task5.java:202-216 | a successful edit changes only the first match, and only its selected field: the name verbatim, or the roll number or grade to the parsed value |
| Roster.EditWithRendered | Task5.java:207-212 | typing the text of an `int` into the roll-number or grade option stores that very `int` |
| Roster.EditIdempotent | Task5.java:199-218 | repeating a successful edit leaves the list as it is, provided the new name still matches |
| Roster.ListingLines | Task5.java:176-182 | for names without line breaks the listing holds one newline per record, ends with a newline, and is empty exactly for an empty list |
| Roster.ListingConcat | Task5.java:178-180 | the listing of two lists joined is the listing of the first followed by that of the second, so lines come in list order |
| Roster.ListingExample | Task5.java:179 | Alice (1, 90) followed by Bob (2, 85) render as `Name: Alice, Roll Number: 1, Grade: 90\n` then `Name: Bob, Roll Number: 2, Grade: 85\n` |
| Roster.ParseFormatLine | Task5.java:240-245 | the line saved for a record whose name holds no comma parses back to that record |
| Roster.LoadSaved | Task5.java:226-246 | round trip: the lines `saveToFile` writes load back as the same records in the same order, without a `NumberFormatException`, when no name holds a comma |
| Roster.ParseLinesConcat | Task5.java:238-247 | a file is read line by line: two pieces give the records of the first followed by those of the second, unless the first already threw |
| Roster.SkipMalformedLine | Task5.java:240-241 | a line that does not split into exactly three parts adds nothing and the lines after it are still read |
| Roster.AbortKeepsEarlier | Task5.java:241-245 | a three-part line with a bad number ends the load with `NumberFormatException`; the records of the earlier lines are kept and later lines are not read |
| Roster.CollectAbortsAt | Task5.java:242-245 | once a line throws, the lines after it contribute nothing |
| Roster.ParseLinesStep | Task5.java:238-246 | one iteration of the `readLine` loop: a skipped line adds nothing, an accepted line appends its record, a bad number ends the load |
| Roster.CollectBound | Task5.java:238-246 | a load appends at most one record per line |
| JavaLang.ParseIntToString | Task5.java:242-243 | `Integer.parseInt` reads back every `int` that `Integer.toString` writes |
| JavaLang.ParseIntCanonical | Task5.java:208 | on text in the form `Integer.toString` writes, the text parses to `n` exactly when it is the text of `n` |
| JavaLang.IntToStringPlain | Task5.java:229 | the text of an `int` is non-empty and holds no comma and no line break, so a saved line keeps its three fields |
| JavaLang.SplitThree | Task5.java:240 | three comma-free parts joined by commas, the last non-empty, split back into those three parts |
| JavaLang.SplitDropsTrailingEmpty | Task5.java:240 | `"Bob,2,".split(",")` has two parts, because trailing empty strings are dropped |
| JavaLang.SplitOnlyCommas | Task5.java:240 | `",,"` splits into no parts, while `""` splits into one empty part |
| JavaLang.JoinFields | Task5.java:240 | cutting at every comma and joining with commas gives back the text, and no field holds a comma |
| JavaLang.EqualsIgnoreCaseLower | Task5.java:187 | two names match ignoring case exactly when their lower-case forms are equal |
| JavaLang.EqualsIgnoreCaseEquivalence | Task5.java:202 | matching ignoring case is reflexive, symmetric and transitive |

## Left out

- `StudentManagerGUI` and `Task5.main` (Task5.java:8-129) are Swing dialogs and event-thread plumbing, so they are not part of this model.
- The `FileWriter`, `PrintWriter` and `BufferedReader` handles are not modelled. The file is a sequence of lines, and whether it can be written is a parameter of the store.
- The `System.err` messages of the `IOException` branches are not modelled. Only their effect is kept: the file is unchanged after a failed save, and nothing is added when the file is missing.
- A read error part-way through a file is not modelled, because the file is always readable once it exists.
- Line separators are not modelled. A line is a string without its terminator, and a name holding a line break stays one line of the file.
- The round trip therefore requires only that no name holds a comma.
- `JavaLang.ParseInt` accepts ASCII digits only, while `Integer.parseInt` also accepts the other Unicode decimal digits.
- `JavaLang.EqualsIgnoreCase` folds ASCII letters only, while Java also folds the case of other Unicode letters.
- The message text of a `NumberFormatException` is not modelled; only the kind of failure is.
- The getters are modelled as reads of the fields.
- Null arguments are not modelled.
- `Task5.StudentManagementSystem.FindStudent`: the source writes the search loop twice, inside `removeStudent` and inside `editStudent`. Both loops stop at the first case-insensitive match, and the model has them share one method.
