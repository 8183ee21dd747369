# Employee dashboard core, in Dafny

This project models the logic of the TechNova employee dashboard (`EMP_Dashboard/script.js`),
a single-page roster manager that keeps its list of employees in the browser's `localStorage`.
The DOM is taken out. What remains is modelled and proved:

- the roster state and its commands: load, save, add, delete, open-edit, submit-edit, filter, search;
- the two-stage view (category filter, then a case-insensitive search over names and skills);
- the statistics panel: totals, certified counts and the most common skill;
- the form validation rules (required, e-mail shape, minimum length) and their messages;
- the CSV text the export button builds.

Modules, one file each:

- `Wrappers`: `Option`.
- `Text`: the JavaScript string operations used by the page:
  - `toLowerCase` and `trim`, both ASCII-only;
  - `includes` as `Contains`;
  - `join`;
  - `String(n)` for integer ids below 10^21.

  It also defines `Split`, which the page never calls. `Split` reads the exported text back into lines and cells, to state the CSV's structure.
- `Sequences`: order-preserving subsequences and `Keep`, which is `Array.prototype.filter`.
- `Employees`: the employee record, the three seed records, lookup by id, delete-by-id and edit-by-id.
- `Query`: `filterAndRender`'s filtering.
- `Stats`: `updateStats`'s computation, including the `reduce` over `Object.keys` that picks the most common skill.
- `Validation`: the rules of `validateField` and `validateForm`.
- `Export`: `exportToCSV`'s text.
- `Dashboard`: the page state as a class `Roster`. Its fields are:
  - `employees`;
  - `currentFilter`;
  - `currentSearchTerm`;
  - `editingEmployeeId`;
  - `stored`, the `employees` entry of `localStorage`, which is `None` when absent.

  The event handlers are its methods.

A reader might expect two behaviours the code does not have:
- ties for the most common skill going to the first-seen skill;
- corrupt stored data falling back silently to the seed records.

The model follows the code. The points below cover ties and three other places where the code may surprise. Corrupt data is answered under "## Left out": `JSON.parse` throws, and nothing catches it.

- **Most common skill on a tie.** The `reduce` keeps `b` whenever `counts[a] > counts[b]` fails, so on a tie the key that comes later in `Object.keys` order wins. That order is first-occurrence order for these non-numeric keys. On the seed roster CSS and JavaScript both occur twice, and the page shows **JavaScript**, not the first-seen CSS (`Stats.SeedMostCommonSkill`).
- **Loading.** `loadEmployees` tests the stored *string*. A saved empty list is the text `"[]"`, which is truthy, so it loads as an empty roster. Only an absent entry (or an empty stored text, see below) brings back the seed records.
- **Editing.** `handleEditSubmit` runs no validation. The edit form's values are stored after trimming name and e-mail, whatever they are.
- **Opening the editor.** `openEditModal` records the id before looking it up. An unknown id therefore leaves `editingEmployeeId` set.

## Model

| member | source | states |
|---|---|---|
| Employees.Seed | EMP_Dashboard/script.js:41-45 | the sample roster has three records with ids 1, 2, 3, all distinct |
| Employees.IndexOfId | EMP_Dashboard/script.js:203 | `None` exactly when no record has the id; otherwise the first index whose record has it |
| Employees.FindById | EMP_Dashboard/script.js:203 | `find` gives nothing exactly when no record has the id, and otherwise a record of the list carrying that id |
| Employees.FindByIdSpec | EMP_Dashboard/script.js:203-204 | `find` returns nothing iff the id is absent, else the first record carrying that id |
| Employees.WithoutId | EMP_Dashboard/script.js:193 | the filter keeps, in order, exactly the records whose id differs (same multiplicities), and none with the id |
| Employees.WithoutAbsentId | EMP_Dashboard/script.js:193 | deleting an id nobody has leaves the list unchanged |
| Employees.SubsequenceKeepsUniqueIds | EMP_Dashboard/script.js:193 | any order-preserving sublist of a list with distinct ids has distinct ids |
| Employees.ReplaceById | EMP_Dashboard/script.js:227-240 | the `map` keeps length and every id; records whose id is not the edited one are untouched; the matching ones get the form's details |
| Employees.ReplaceByIdIdempotent | EMP_Dashboard/script.js:227-240 | submitting the same edit twice gives the same list as once |
| Employees.ReplaceByIdChangesOne | EMP_Dashboard/script.js:227-240 | with distinct ids an edit keeps ids distinct and changes at most one record |
| Query.NormalizedTerm | EMP_Dashboard/script.js:137 | the lower-cased, trimmed search term is empty exactly when the typed term is all whitespace |
| Query.InCategory | EMP_Dashboard/script.js:126-134 | the category test: "All" passes every record, "Certified" the certified ones, any other filter the records of that exact department |
| Query.Matches | EMP_Dashboard/script.js:139-148 | the search test: the lower-cased name, or some lower-cased skill, contains the normalized term |
| Query.CategoryStage | EMP_Dashboard/script.js:126-134 | "All" keeps the list; "Certified" keeps exactly the certified records; any other filter keeps exactly that department; always an order-preserving sublist |
| Query.SearchStage | EMP_Dashboard/script.js:137-150 | a blank term (after lower-casing and trimming) keeps the list; otherwise exactly the records whose lower-cased name or some lower-cased skill contains the term, in order |
| Query.View | EMP_Dashboard/script.js:123-150 | the list handed to `renderTable` is an order-preserving sublist of the roster, and is the whole roster under "All" with a blank term |
| Query.ViewSpec | EMP_Dashboard/script.js:123-154 | the view is an order-preserving sublist of the roster and holds a record (with its multiplicity) iff it passes both the category and the search test |
| Query.NameSearchFinds | EMP_Dashboard/script.js:141 | a record in the category whose name contains the normalized term is shown |
| Stats.AllSkills | EMP_Dashboard/script.js:102 | `flatMap` is empty iff every record has no skills; a skill is in it iff some record lists it |
| Stats.Tally | EMP_Dashboard/script.js:105-108 | the count map has exactly the skills as keys, and each count is the skill's number of occurrences |
| Stats.KeyOrder | EMP_Dashboard/script.js:109 | `Object.keys` holds exactly the distinct skills |
| Stats.KeyOrderIsFirstOccurrenceOrder | EMP_Dashboard/script.js:105-109 | the keys come in order of each skill's first occurrence |
| Stats.KeyOrderDistinct | EMP_Dashboard/script.js:109 | no key is listed twice |
| Stats.ReduceToMostFrequent | EMP_Dashboard/script.js:109-111 | the `reduce` result is one of the keys |
| Stats.ReduceToMostFrequentIsMax | EMP_Dashboard/script.js:109-111 | no key has a larger count than the result |
| Stats.ReduceToMostFrequentIsLast | EMP_Dashboard/script.js:109-111 | no key after the result has the same count: ties go to the later key |
| Stats.MostFrequent | EMP_Dashboard/script.js:105-111 | the skill the count-and-`reduce` picks from a non-empty skill list is one of its skills |
| Stats.MostFrequentSpec | EMP_Dashboard/script.js:104-112 | the chosen skill occurs, is of maximal count, and among skills of maximal count it is the one whose first occurrence comes latest |
| Stats.MostFrequentBeats | EMP_Dashboard/script.js:104-112 | every skill's count is at most the chosen one's, and on equal count it first occurs no later than the chosen one |
| Stats.MostCommonSkill | EMP_Dashboard/script.js:102-112 | with no skills the panel shows "N/A", otherwise one of the skills someone has |
| Stats.MostCommonSkillSpec | EMP_Dashboard/script.js:102-112 | with any skill present the result is a maximal-count skill with the tie-break above |
| Stats.NotApplicableIffNoSkills | EMP_Dashboard/script.js:103-104 | "N/A" is shown iff nobody has a skill, when no skill is literally named "N/A" |
| Stats.CertifiedCount | EMP_Dashboard/script.js:99 | the certified count is the size of the `filter` by `certified`, at most the roster's size |
| Stats.ComputeStatistics | EMP_Dashboard/script.js:97-112 | total is the roster's size, the certified count is `CertifiedCount` (the length of the certified filter), certified plus non-certified is the total, and the skill is `MostCommonSkill` |
| Stats.NoneUncertifiedIffAllCertified | EMP_Dashboard/script.js:99-100 | the non-certified count is zero iff every record is certified |
| Stats.SeedSkills | EMP_Dashboard/script.js:41-45 | the seed's flattened skills are HTML, CSS, JavaScript, Python, SQL, CSS, JavaScript |
| Stats.SeedMostCommonSkill | EMP_Dashboard/script.js:41-45 | on the seed roster the panel shows "JavaScript" |
| Validation.EmailShaped | EMP_Dashboard/script.js:281 | `/\S+@\S+\.\S+/` matches somewhere in the text; a matching text has at least five characters, an `@` and a `.` |
| Validation.Message | EMP_Dashboard/script.js:278-287 | the three error texts, each a non-empty sentence ending in a period |
| Validation.CheckField | EMP_Dashboard/script.js:278-287 | required-and-blank gives the required error first; the result is `None` iff the value passes all three rules |
| Validation.CheckFieldOrder | EMP_Dashboard/script.js:278-287 | the e-mail error is reported iff the required rule passes and the shape fails; the length error iff both earlier rules pass and the trimmed value is too short |
| Validation.MessagesDiffer | EMP_Dashboard/script.js:278-287 | distinct errors show distinct messages, including different minimum lengths |
| Validation.EmailShapedInfix | EMP_Dashboard/script.js:281 | the unanchored pattern still matches when text is added on either side |
| Validation.SeedEmailsShaped | EMP_Dashboard/script.js:41-45 | the three seed e-mails pass the e-mail rule |
| Validation.RejectedEmails | EMP_Dashboard/script.js:281 | "a@b" and "@b.c" fail the e-mail rule |
| Validation.MarkFor | EMP_Dashboard/script.js:304-331 | a control is skipped exactly when it is not inspected, and flagged exactly when it is inspected and breaks a rule, with that rule's error; otherwise it is cleared |
| Validation.FormValid | EMP_Dashboard/script.js:300-334 | the form passes when no required control that has an error element breaks a rule |
| Validation.ValidateForm | EMP_Dashboard/script.js:300-334 | the loop marks every field (skipped without error slot or not required, else cleared or flagged with its error) and the result is true iff no field is flagged |
| Validation.EmptyRequiredFieldFailsForm | EMP_Dashboard/script.js:311-313 | one inspected (required, with an error element), blank control makes the form invalid |
| Text.Lower | EMP_Dashboard/script.js:137 | lower-casing maps each character, only A-Z change |
| Text.LowerIdempotent | EMP_Dashboard/script.js:137 | lower-casing twice is lower-casing once |
| Text.LeadingSpaces | EMP_Dashboard/script.js:137 | counts exactly the leading whitespace |
| Text.TrimEnd | EMP_Dashboard/script.js:137 | drops exactly the trailing whitespace |
| Text.Trim | EMP_Dashboard/script.js:137 | the result is the input with whitespace removed at both ends, has none at either end, and is empty iff the input is all whitespace |
| Text.TrimIdempotent | EMP_Dashboard/script.js:137 | trimming twice is trimming once |
| Text.Contains | EMP_Dashboard/script.js:141 | `includes`: the needle is never longer than a text containing it, and the empty needle is in every text |
| Text.ContainsIffOccurs | EMP_Dashboard/script.js:141 | `includes` holds iff the needle occurs at some position |
| Text.Join | EMP_Dashboard/script.js:343-347 | `Array.prototype.join`: the parts with the separator between neighbours, empty for no parts |
| Text.JoinEnds | EMP_Dashboard/script.js:343-347 | a joined text begins with the first part and ends with the last |
| Text.JoinAvoids | EMP_Dashboard/script.js:347 | joining parts free of a character with a separator free of it gives text free of it |
| Text.Split | EMP_Dashboard/script.js:347 | splitting yields at least one piece |
| Text.SplitWithoutSeparator | EMP_Dashboard/script.js:347 | text without the separator splits into itself alone |
| Text.SplitAtSeparator | EMP_Dashboard/script.js:347 | a separator after a separator-free word splits the word off |
| Text.SplitJoin | EMP_Dashboard/script.js:347 | splitting a join of separator-free parts gives the parts back |
| Text.DigitChar | EMP_Dashboard/script.js:339 | a digit maps to a character 0-9 |
| Text.NatToString | EMP_Dashboard/script.js:339 | the decimal text of a natural is non-empty digits |
| Text.IntToString | EMP_Dashboard/script.js:339 | the decimal text of an integer is non-empty; for a natural it is all digits, for a negative number a leading minus followed by digits only |
| Text.IntToStringRoundTrip | EMP_Dashboard/script.js:339 | the text reads back: its digits (after the minus, if negative) give the magnitude of the number |
| Text.NatToStringRoundTrip | EMP_Dashboard/script.js:339 | reading the decimal text back gives the number |
| Sequences.SubsequenceReflexive | EMP_Dashboard/script.js:124 | a list is a sublist of itself |
| Sequences.SubsequenceTransitive | EMP_Dashboard/script.js:126-150 | filtering a filtered list gives a sublist of the original |
| Sequences.SubsequenceOfSameLength | EMP_Dashboard/script.js:126-150 | a sublist as long as the list is the list |
| Sequences.SubsequenceShorter | EMP_Dashboard/script.js:126-150 | a sublist is no longer than the list |
| Sequences.SubsequenceMembers | EMP_Dashboard/script.js:126-150 | a sublist's members are members of the list |
| Sequences.Keep | EMP_Dashboard/script.js:99 | `filter` gives an order-preserving sublist holding each element as often as the input iff the predicate holds, else not at all |
| Sequences.KeepSnoc | EMP_Dashboard/script.js:169-172 | filtering a list extended by one element extends the filtered list by that element exactly when it passes |
| Sequences.KeepEverything | EMP_Dashboard/script.js:126-150 | filtering by a predicate every element satisfies changes nothing |
| Export.HeaderText | EMP_Dashboard/script.js:337-347 | the header line is `ID,Name,Email,Department,Skills,Certified` |
| Export.HeaderCells | EMP_Dashboard/script.js:337-347 | the header line splits back at its commas into the six column names |
| Export.Quoted | EMP_Dashboard/script.js:340-343 | a quoted cell is two characters longer than its text and begins and ends with `"` |
| Export.BoolText | EMP_Dashboard/script.js:344 | the flag renders as "true" exactly when it is set and as "false" exactly when it is not |
| Export.Cells | EMP_Dashboard/script.js:338-345 | a record gives six cells: the id in decimal, four double-quoted texts, and "true" or "false" |
| Export.Row | EMP_Dashboard/script.js:338-345 | a record's line begins with its id and ends with its certified flag |
| Export.Rows | EMP_Dashboard/script.js:338-345 | one row per employee |
| Export.CellsFreeOf | EMP_Dashboard/script.js:338-345 | a character absent from the record's name, e-mail, department and skills yields cells without it, provided it is none of the characters the cells add: not a digit or `-` (from the id), not `"` (the quotes), not `;` or space (the skill separator), and not a letter of "true"/"false" |
| Export.RowIsOneLine | EMP_Dashboard/script.js:338-345 | a record without newlines gives a one-line row |
| Export.CsvText | EMP_Dashboard/script.js:347 | the CSV text begins with the header and ends with the last employee's row, or with the header when the roster is empty |
| Export.CsvLines | EMP_Dashboard/script.js:347 | without newlines in the data, the CSV has one header line then one line per employee, in roster order |
| Export.RowCells | EMP_Dashboard/script.js:338-345 | without commas in the data, a row splits back into its six cells |
| Export.RowText | EMP_Dashboard/script.js:338-345 | a row is the id, the quoted name, e-mail, department and "; "-joined skills, and true/false, comma-separated |
| Export.CsvOfThree | EMP_Dashboard/script.js:347 | a three-record roster exports to the header and three rows separated by newlines |
| Export.SeedCsv | EMP_Dashboard/script.js:336-347 | the seed roster's CSV is the header followed by its three rows |
| Export.SeedCells | EMP_Dashboard/script.js:338-345 | the seed records' six cells, spelled out |
| Export.SmallIds | EMP_Dashboard/script.js:339 | ids 1, 2, 3 print as "1", "2", "3" |
| Export.SeedSkillsJoined | EMP_Dashboard/script.js:343 | the seed skill lists join to "HTML; CSS", "JavaScript; Python; SQL", "CSS; JavaScript" |
| Dashboard.CheckedValues | EMP_Dashboard/script.js:169-172 | the collected skills are never more than the boxes |
| Dashboard.CheckedValuesIsFilterMap | EMP_Dashboard/script.js:169-172 | the collected skills are the values of the boxes kept by `filter` on their tick: one per ticked box, in document order |
| Dashboard.CheckedValuesSpec | EMP_Dashboard/script.js:169-172 | a value is collected exactly when some ticked box carries it |
| Dashboard.CollectCheckedSkills | EMP_Dashboard/script.js:169-172 | the `forEach`/`push` loop collects the ticked boxes' values in document order |
| Dashboard.Roster.constructor | EMP_Dashboard/script.js:35-38 | the page starts with an empty list, filter "All", no search term and nothing being edited |
| Dashboard.Roster.SaveEmployees | EMP_Dashboard/script.js:59-61 | the stored entry becomes the current list |
| Dashboard.Roster.LoadEmployees | EMP_Dashboard/script.js:49-57 | a stored list (even empty) is loaded as is; an absent entry loads and saves the seed |
| Dashboard.Roster.SetFilter | EMP_Dashboard/script.js:268 | the filter button's value becomes the current filter |
| Dashboard.Roster.SetSearch | EMP_Dashboard/script.js:411-414 | the raw search text becomes the current term |
| Dashboard.Roster.CurrentView | EMP_Dashboard/script.js:123-154 | the rendered list is a sublist of the roster holding exactly the records that pass the current filter and term |
| Dashboard.Roster.CurrentStatistics | EMP_Dashboard/script.js:97-100 | statistics are over the whole roster, not the view |
| Dashboard.Roster.CsvExport | EMP_Dashboard/script.js:336-347 | the export covers the whole roster, one line per employee when the data has no newlines |
| Dashboard.Roster.AddEmployee | EMP_Dashboard/script.js:162-189 | nothing changes when validation fails; otherwise one record with the given id, trimmed name and e-mail, ticked skills and certified flag is appended and saved; a validated name is non-empty and a validated e-mail is e-mail shaped; a fresh id keeps ids distinct |
| Dashboard.Roster.DeleteEmployee | EMP_Dashboard/script.js:191-199 | unconfirmed: nothing changes; confirmed: exactly the records with other ids remain, in order, and the list is saved; ids stay distinct |
| Dashboard.Roster.OpenEditModal | EMP_Dashboard/script.js:201-217 | the edited id is set even when unknown; the record loaded into the form is the first with that id, or none iff no record has it |
| Dashboard.Roster.HandleEditSubmit | EMP_Dashboard/script.js:219-247 | records with the edited id take the form's trimmed values, all ids and all other records are kept, ids stay distinct, the list is saved and editing ends |
| Dashboard.Start | EMP_Dashboard/script.js:376-379 | opening the page over stored data loads it, over no data loads the seed, and leaves the data saved |
| Dashboard.ReloadAfterSave | EMP_Dashboard/script.js:49-61 | saving and reopening the page gives back the same list |

## Left out

- Rendering (`renderTable`, the modal's `showModal`/`close`, the sidebar toggle, `resetForm`), and the toasts with their three-second timer. These only touch the DOM.
- `localStorage` and `JSON.stringify`/`JSON.parse` are modelled as an optional list held in the class. Serialization itself is not modelled.
- Corrupt stored text makes `JSON.parse` throw. The code does not catch this, so the model has no such case.
- The Blob, object URL and link click that download the CSV. The model stops at the CSV text.
- `Date.now()` as the new record's id. `AddEmployee` takes the id as a parameter, and its uniqueness is a hypothesis of the distinct-ids postcondition, not a guarantee.
- The browser's `confirm` dialog is modelled as a boolean parameter of `DeleteEmployee`.
- `handleTableClick`'s `Number(dataset.id)` parsing is left out. The handlers take the numeric id.
- Dashboard.Roster.OpenEditModal: the pre-ticking of the edit form's boxes is not modelled. It only sets DOM state.
- Text.Lower and Text.Trim: ASCII only. Non-ASCII letters are not lower-cased, and Unicode whitespace beyond space, tab, line feed, vertical tab, form feed and carriage return is not trimmed.
- Validation.EmailShaped: `\S` is taken as "not one of those six ASCII whitespace characters".
- Stats.Tally: every skill is an ordinary key of the count map. On the page, `acc[skill] || 0` runs on a plain `{}`, so it reads members inherited from `Object.prototype`. A skill named "toString" gets a string as its count, so every `>` comparison against it is false. A skill named "__proto__" never becomes a key, and a roster whose only skill is "__proto__" makes `reduce` throw on an empty key list. The model treats all names alike.
- Validation.CheckField: lengths are counted in Unicode scalar values. `value.trim().length` counts UTF-16 code units, so a character outside the Basic Multilingual Plane counts 1 in the model and 2 on the page. For example, "😀" against a minimum length of 2 gives `TooShort(2)` in the model but passes on the page.
- Dashboard.Roster.LoadEmployees: the stored entry is a list or absent. An entry holding the empty text is falsy, so the page loads the seed for it as for an absent one. `saveEmployees` never writes the empty text, and the model has no way to represent it.
- Stats.KeyOrder: `Object.keys` lists integer-like keys (such as a skill named "42") first in numeric order. The model uses first-occurrence order for every key, which is what the page's skill names produce.
- Validation.ValidateForm: the form's required controls are taken to be the name, e-mail and department inputs, in that order (`Dashboard.Controls`). The page markup is not part of this model.
- `validateField`'s blur handler applies the same rules as `CheckField`, then writes them to the DOM. It throws when the field has no following sibling, and that case is not modelled.
- Dashboard.Roster.CsvExport: the model does not claim that a CSV reader recovers the records. Text cells are quoted, so a comma or line break inside a name stays in its cell for a CSV reader. But quotes are not doubled, so a `"` inside a text breaks the cell structure. Line and cell structure are proved with the plain splits of `Export.CsvLines` and `Export.RowCells`, which a comma or line break does defeat, so those lemmas require data free of line breaks and of commas respectively.
- Text.IntToString: ids are unbounded integers. On the page an id is a JavaScript number: `String(n)` switches to exponent form from 10^21, and `===` on ids is exact only up to 2^53. The model takes ids as integers below both bounds. `Date.now()` ids (about 1.7 × 10^12) and the seed ids 1 to 3 are far below them.
