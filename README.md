# LDAP query element — a verified Dafny model

This project models the logic of the LDAP query process element of the ivy supplements,
`LdapQueryBeanRS` (ldap-beans). The element turns its stored configuration into a directory
search and maps the entries the search returns into the process data. It has three parts:

- **The configuration decoder (`setConfiguration`).** It reads a flat property set into the
  element's fields: base object, scope, filter table or free-text filter, result attributes and
  their output bindings, include-name flag, and sort settings.
- **The filter builder (`buildSearchFilter`).** It has two modes. Free-text mode substitutes
  every `in.<name>)` marker. Table mode builds the conjunction `(&(a=v)…)`.
- **The result mapper (`perform` and its helpers).** In first-only mode, the first entry found
  is written into output variables (`setVariable`), and the outputs are set to null when nothing
  is found. In "all" mode, every entry becomes a row. The rows are stored as a list, or
  insertion-sorted on one column (case-insensitive) into a Recordset.

The model also covers the table half of the editor's `getConfiguration`, which writes the editor
tables back as indexed properties. A lemma proves that the decoder reads those tables back.

Modules, one per component:

| file | module | what it holds |
|---|---|---|
| wrappers.dfy | `Wrappers` | `Option`, `Result`, and the Java exceptions as values |
| text.dfy | `Text` | the `java.lang.String` operations used: `startsWith`, `indexOf`, `trim`, `replaceAll("/", "\\/")`, `compareToIgnoreCase`, and the decimal counters of the keys |
| script.dfy | `Script` | `getVariable`, over an abstract script engine |
| data.dfy | `Composite` | the process data as a tree, and `setVariable` as a pure update |
| config.dfy | `Config` | the keys, the three indexed-table loops, and `Configure`, the decoder as a function |
| filter.dfy | `Filter` | both filter modes, each as a loop method proved against a function |
| rows.dfy | `Rows` | the entry name, the row of one entry, the first-only writes, `setNoResult` |
| table.dfy | `Table` | column headers, sort column, the insertion sort over an array of rows, the Recordset |
| bean.dfy | `Bean` | the class `LdapQueryBean` with the element's fields, `setConfiguration`, `getRootObjectName`, `perform` |
| editor.dfy | `Editor` | the encoding loops of `getConfiguration`, and the round trip |

Java exceptions are modelled as `Err` values, never as preconditions: `NullPointerException`,
`ClassCastException`, `StringIndexOutOfBoundsException`/`ArrayIndexOutOfBoundsException`, and
`NoSuchFieldException`. Each such error path of the source is a result of the model.

## Model

| member | source | states |
|---|---|---|
| Config.ConfigureScalars | ldap-beans/src/ch/ivyteam/ivy/ldap/beans/LdapQueryBeanRS.java:171-281 | scope is SUBTREE/ONELEVEL exactly for "subTree"/"oneLevel", else OBJECT; base object, grid attribute and name attribute lose a leading "in."; include-name is read from result_include_name2 once a grid attribute is set (also by an earlier configuration), else from result_include_name; the free text is taken only under format "filterText"; descending exactly for "descending" |
| Config.ScopeOf | ldap-beans/src/ch/ivyteam/ivy/ldap/beans/LdapQueryBeanRS.java:177-188 | the scope is SUBTREE iff the setting is "subTree", ONELEVEL iff it is "oneLevel" |
| Config.ParseBoolean | ldap-beans/src/ch/ivyteam/ivy/ldap/beans/LdapQueryBeanRS.java:247-258 | `new Boolean(s)` is true exactly for a four-letter string whose letters lowered spell "true" ("true", "True", "TRUE", …), false for every other string |
| Config.RowCount | ldap-beans/src/ch/ivyteam/ivy/ldap/beans/LdapQueryBeanRS.java:190-245 | a table loop reads rows 0..n-1, each with all its keys, and stops at the first index n where a key is missing |
| Config.RowCountIs | ldap-beans/src/ch/ivyteam/ivy/ldap/beans/LdapQueryBeanRS.java:205-206 | complete rows below n and an incomplete row n mean the loop read exactly n rows |
| Config.IndexedKeyInjective | ldap-beans/src/ch/ivyteam/ivy/ldap/beans/LdapQueryBeanRS.java:193-195 | distinct counters give distinct keys `prefix + pos` |
| Config.AttributeNamesAreRows | ldap-beans/src/ch/ivyteam/ivy/ldap/beans/LdapQueryBeanRS.java:219-225 | a name is appended to the key vector iff it is the non-empty attribute of some row read |
| Config.PutsKeys | ldap-beans/src/ch/ivyteam/ivy/ldap/beans/LdapQueryBeanRS.java:203 | the hashtable gains exactly the appended names as keys, on top of the keys already there |
| Config.PutsLastRowWins | ldap-beans/src/ch/ivyteam/ivy/ldap/beans/LdapQueryBeanRS.java:196-204 | a named attribute maps to the value of the last row naming it, as that row's loop reads it (a filter value without a leading "in.") |
| Config.RepeatedAttributeAppendedTwice | ldap-beans/src/ch/ivyteam/ivy/ldap/beans/LdapQueryBeanRS.java:238-243 | an attribute listed by two rows is appended to the key vector at least twice, while the hashtable holds it as one key |
| Config.ConfigureKeepsKeysBound | ldap-beans/src/ch/ivyteam/ivy/ldap/beans/LdapQueryBeanRS.java:208-246 | if the key vector and the hashtable list the same names before a configuration, they still do after it |
| Config.ConfigureAccumulates | ldap-beans/src/ch/ivyteam/ivy/ldap/beans/LdapQueryBeanRS.java:190-246 | a second configuration never removes filter attributes, result attributes or result keys, and never clears a grid attribute |
| Bean.LdapQueryBean.constructor | ldap-beans/src/ch/ivyteam/ivy/ldap/beans/LdapQueryBeanRS.java:83-122 | the element starts unconfigured: null settings, empty tables, one-level scope |
| Bean.LdapQueryBean.SetConfiguration | ldap-beans/src/ch/ivyteam/ivy/ldap/beans/LdapQueryBeanRS.java:131-311 | a null configuration changes nothing; otherwise the new fields are `Configure` of the old fields and the properties, and the key vector and the hashtable stay in step |
| Bean.LdapQueryBean.ReadSearchSettings | ldap-beans/src/ch/ivyteam/ivy/ldap/beans/LdapQueryBeanRS.java:171-188 | sets the base object and the scope as `ReadSearch` says, and nothing else |
| Bean.LdapQueryBean.ReadFilterTable | ldap-beans/src/ch/ivyteam/ivy/ldap/beans/LdapQueryBeanRS.java:190-206 | the do-while loop adds exactly the puts of rows 0..RowCount-1 to the filter table |
| Bean.LdapQueryBean.ReadGridAttributes | ldap-beans/src/ch/ivyteam/ivy/ldap/beans/LdapQueryBeanRS.java:216-227 | "all" mode: each non-empty name is bound to "" and appended, in index order, until the key is missing |
| Bean.LdapQueryBean.ReadOutputTable | ldap-beans/src/ch/ivyteam/ivy/ldap/beans/LdapQueryBeanRS.java:231-245 | first-only mode: each non-empty attribute is bound to its output and appended, until a pair is incomplete |
| Bean.LdapQueryBean.ReadResultAttributes | ldap-beans/src/ch/ivyteam/ivy/ldap/beans/LdapQueryBeanRS.java:208-246 | "all" mode sets the grid attribute and runs the grid loop; any other mode runs the output-table loop |
| Bean.LdapQueryBean.ReadResultOptions | ldap-beans/src/ch/ivyteam/ivy/ldap/beans/LdapQueryBeanRS.java:247-281 | the fields after the tables are set as `ReadOptions` says |
| Filter.ExpandFilterText | ldap-beans/src/ch/ivyteam/ivy/ldap/beans/LdapQueryBeanRS.java:404-424 | the at/to loop computes `Expand`, including the exception for a marker without a later ")" |
| Filter.ExpandTemplate | ldap-beans/src/ch/ivyteam/ivy/ldap/beans/LdapQueryBeanRS.java:404-424 | for a template of literal text and `in.NAME)` references, text outside markers is copied, each NAME is replaced by its value's string (nothing for null), and the ")" is kept |
| Filter.ExpandWithoutMarker | ldap-beans/src/ch/ivyteam/ivy/ldap/beans/LdapQueryBeanRS.java:408-423 | a filter text without "in." is returned unchanged |
| Filter.ExpandUnclosedMarker | ldap-beans/src/ch/ivyteam/ivy/ldap/beans/LdapQueryBeanRS.java:413-414 | an "in." with no later ")" makes `substring(at + 3, -1)` throw |
| Filter.BuildTableFilter | ldap-beans/src/ch/ivyteam/ivy/ldap/beans/LdapQueryBeanRS.java:427-468 | the loop over the hashtable's key enumeration computes `TableFilter`; the first failing pair decides the exception |
| Filter.EmptyTableFilter | ldap-beans/src/ch/ivyteam/ivy/ldap/beans/LdapQueryBeanRS.java:427-468 | an empty filter table gives the empty filter "" |
| Filter.TableFilterShape | ldap-beans/src/ch/ivyteam/ivy/ldap/beans/LdapQueryBeanRS.java:455-467 | with n >= 1 pairs the filter is "(&", then n segments "(attr=value)", the i-th from key i of the enumeration, then ")"; a single pair is still wrapped |
| Filter.ConditionsAt | ldap-beans/src/ch/ivyteam/ivy/ldap/beans/LdapQueryBeanRS.java:429-462 | conjunct i is the condition built from key i and its table value |
| Filter.ConditionQuoted | ldap-beans/src/ch/ivyteam/ivy/ldap/beans/LdapQueryBeanRS.java:432-440 | a value that resolves to a quoted string is used without the quotes; a null attribute name prints as "null" |
| Filter.ConditionUnquoted | ldap-beans/src/ch/ivyteam/ivy/ldap/beans/LdapQueryBeanRS.java:441-454 | an unquoted value is resolved a second time and kept as it is when that gives null |
| Filter.ConditionNullValue | ldap-beans/src/ch/ivyteam/ivy/ldap/beans/LdapQueryBeanRS.java:434-435 | a value expression that resolves to null makes `trim()` throw |
| Filter.ConditionLoneQuote | ldap-beans/src/ch/ivyteam/ivy/ldap/beans/LdapQueryBeanRS.java:437-439 | a value that trims to one double quote makes `substring(1, 0)` throw |
| Bean.LdapQueryBean.BuildSearchFilter | ldap-beans/src/ch/ivyteam/ivy/ldap/beans/LdapQueryBeanRS.java:402-470 | free-text mode when a filter text is set, table mode otherwise |
| Script.ExpressionFor | ldap-beans/src/ch/ivyteam/ivy/ldap/beans/LdapQueryBeanRS.java:827-830 | the evaluated expression always contains "in."; it is the name itself when the name contains "in.", else "in." + name |
| Script.FailedScriptYieldsName | ldap-beans/src/ch/ivyteam/ivy/ldap/beans/LdapQueryBeanRS.java:832-839 | a script error makes getVariable return the name itself |
| Bean.QuotedRoot | ldap-beans/src/ch/ivyteam/ivy/ldap/beans/LdapQueryBeanRS.java:472-477 | corrected: a quoted base object padded with blanks resolves to the text between the quotes |
| Bean.QuotedRootAsWritten | ldap-beans/src/ch/ivyteam/ivy/ldap/beans/LdapQueryBeanRS.java:474-476 | as written: a single leading blank keeps the opening quote and drops the last character of the name |
| Bean.RootAgreesUnpadded | ldap-beans/src/ch/ivyteam/ivy/ldap/beans/LdapQueryBeanRS.java:472-487 | the corrected and the as-written base object agree for every name that is unquoted or has no blanks around it |
| Bean.UnquotedRoot | ldap-beans/src/ch/ivyteam/ivy/ldap/beans/LdapQueryBeanRS.java:478-486 | an unquoted base object is its variable's string value; it is the name itself when the variable is null; a non-string value throws ClassCast |
| Composite.SetVariable | ldap-beans/src/ch/ivyteam/ivy/ldap/beans/LdapQueryBeanRS.java:842-858 | a successful write keeps the object's field set and changes no top-level field other than the path's first segment |
| Composite.ReadAfterWrite | ldap-beans/src/ch/ivyteam/ivy/ldap/beans/LdapQueryBeanRS.java:842-858 | the dotted path written reads back the value written |
| Composite.WriteSucceedsIffReadable | ldap-beans/src/ch/ivyteam/ivy/ldap/beans/LdapQueryBeanRS.java:848-857 | the write succeeds iff every segment before the last is an existing composite and the last segment is a field |
| Composite.WriteLeavesOtherPaths | ldap-beans/src/ch/ivyteam/ivy/ldap/beans/LdapQueryBeanRS.java:842-858 | a path that neither leads into the written path nor is led into by it (another top-level field, or a sibling such as `user.mail` after writing `user.name`) reads the same after the write |
| Composite.ReadSamePath | ldap-beans/src/ch/ivyteam/ivy/ldap/beans/LdapQueryBeanRS.java:844-856 | the written output reads back the value under every spelling of its path (`in.user.name` and `user.name`) |
| Text.EscapeRoundTrip | ldap-beans/src/ch/ivyteam/ivy/ldap/beans/LdapQueryBeanRS.java:680-681 | the name escaped by `replaceAll("/", "\\/")` unescapes to the original |
| Text.EscapedSlashesArePaired | ldap-beans/src/ch/ivyteam/ivy/ldap/beans/LdapQueryBeanRS.java:680-681 | every slash of the escaped name is preceded by a backslash |
| Rows.NameRoundTrip | ldap-beans/src/ch/ivyteam/ivy/ldap/beans/LdapQueryBeanRS.java:674-696 | under a blank base object, unescaping the row's name of an entry not in quotes gives back the entry's name |
| Rows.QuotedNameRoundTrip | ldap-beans/src/ch/ivyteam/ivy/ldap/beans/LdapQueryBeanRS.java:682-688 | a name in double quotes loses them after slash escaping |
| Rows.QualifiedName | ldap-beans/src/ch/ivyteam/ivy/ldap/beans/LdapQueryBeanRS.java:697-701 | under a non-blank base object the name is `name + "," + base` |
| Rows.LoneQuoteName | ldap-beans/src/ch/ivyteam/ivy/ldap/beans/LdapQueryBeanRS.java:682-688 | an entry named by one double quote makes `substring(1, 0)` throw |
| Rows.RowMatchesHeader | ldap-beans/src/ch/ivyteam/ivy/ldap/beans/LdapQueryBeanRS.java:653-671 | with no present-but-empty attribute, the row has one cell per header: the name first if included, then for key i "" when absent, the value when single, the list of all values when multiple |
| Rows.RowShorterThanHeader | ldap-beans/src/ch/ivyteam/ivy/ldap/beans/LdapQueryBeanRS.java:741-776 | a present attribute with no values adds no cell, so the row is shorter than the header |
| Rows.CellsShortened | ldap-beans/src/ch/ivyteam/ivy/ldap/beans/LdapQueryBeanRS.java:728-776 | the attribute part of a row is short by exactly the number of present-but-empty attributes |
| Rows.GridRows | ldap-beans/src/ch/ivyteam/ivy/ldap/beans/LdapQueryBeanRS.java:366-378 | "all" mode builds one row per entry |
| Rows.GridRowsAreEntryRows | ldap-beans/src/ch/ivyteam/ivy/ldap/beans/LdapQueryBeanRS.java:366-378 | row i is the row of entry i, in search order |
| Rows.GridRowsFirstError | ldap-beans/src/ch/ivyteam/ivy/ldap/beans/LdapQueryBeanRS.java:366-378 | the first entry whose row throws ends the loop with that exception |
| Bean.LdapQueryBean.AppendRow | ldap-beans/src/ch/ivyteam/ivy/ldap/beans/LdapQueryBeanRS.java:644-672 | the row-building loop computes `BuildRow`, the row it returns |
| Bean.LdapQueryBean.CollectRows | ldap-beans/src/ch/ivyteam/ivy/ldap/beans/LdapQueryBeanRS.java:363-379 | the loop over the entries computes `GridRows` |
| Rows.WriteAttributesReadBack | ldap-beans/src/ch/ivyteam/ivy/ldap/beans/LdapQueryBeanRS.java:741-775 | first-only mode, when no output path leads into another and two keys share an output only if they are one repeated key: the output of a key with one value reads back that value, with several values their enumeration; an absent or empty attribute leaves its output untouched |
| Bean.LdapQueryBean.AppendOutputs | ldap-beans/src/ch/ivyteam/ivy/ldap/beans/LdapQueryBeanRS.java:644-672 | first-only mode: the name is written if included, then each attribute that has values, in key order |
| Rows.ClearedReadsNull | ldap-beans/src/ch/ivyteam/ivy/ldap/beans/LdapQueryBeanRS.java:528-533 | after setNoResult's loop, when no output path leads into another (several keys may share an output, siblings such as `user.name` and `user.mail` are allowed), every output bound to a result key reads null |
| Rows.NoResultReadsNull | ldap-beans/src/ch/ivyteam/ivy/ldap/beans/LdapQueryBeanRS.java:523-539 | after setNoResult in first-only mode every output bound to a result key reads null, and so does the name output when the name is included, provided no output path leads into another |
| Rows.ClearedFirstError | ldap-beans/src/ch/ivyteam/ivy/ldap/beans/LdapQueryBeanRS.java:528-533 | the first output path that cannot be written ends setNoResult with that exception |
| Bean.LdapQueryBean.SetNoResult | ldap-beans/src/ch/ivyteam/ivy/ldap/beans/LdapQueryBeanRS.java:523-539 | first-only mode writes null to every bound output in key order, then to the name output when the name is included; "all" mode writes nothing |
| Table.ColumnNames | ldap-beans/src/ch/ivyteam/ivy/ldap/beans/LdapQueryBeanRS.java:541-555 | the headers are "JNDIName" (only when the name is included) followed by the result keys in order |
| Table.SortColumnOf | ldap-beans/src/ch/ivyteam/ivy/ldap/beans/LdapQueryBeanRS.java:565-580 | the sort column is the first header equal to the sort name, or 0 when none is |
| Table.SortColumn | ldap-beans/src/ch/ivyteam/ivy/ldap/beans/LdapQueryBeanRS.java:570-580 | the header loop with `break` finds `SortColumnOf` |
| Table.FindInsertionPoint | ldap-beans/src/ch/ivyteam/ivy/ldap/beans/LdapQueryBeanRS.java:585-613 | the scan loop finds `ScanFrom`, including the exceptions for a missing or null cell |
| Table.InsertAt | ldap-beans/src/ch/ivyteam/ivy/ldap/beans/LdapQueryBeanRS.java:614-621 | the shift moves rows at..n-1 down by one and places the new row at `at`; the slots after row n keep their old rows |
| Table.SortIntoTable | ldap-beans/src/ch/ivyteam/ivy/ldap/beans/LdapQueryBeanRS.java:581-622 | inserting the rows one at a time into the array computes `SortRows` |
| Table.SortRowsPermutes | ldap-beans/src/ch/ivyteam/ivy/ldap/beans/LdapQueryBeanRS.java:581-622 | the sorted table is a permutation of the input rows, each cut to the table width |
| Table.SortRowsOrders | ldap-beans/src/ch/ivyteam/ivy/ldap/beans/LdapQueryBeanRS.java:590-613 | with every sort cell present and non-null, the sort succeeds and the table is non-decreasing (ascending) or non-increasing (descending) under compareToIgnoreCase |
| Table.NullKeyRowInsertedFirst | ldap-beans/src/ch/ivyteam/ivy/ldap/beans/LdapQueryBeanRS.java:592-593 | a row whose sort cell is null is inserted at index 0 |
| Table.TieGoesFirst | ldap-beans/src/ch/ivyteam/ivy/ldap/beans/LdapQueryBeanRS.java:604-611 | a key equal to a placed key goes above it: the sort is not stable |
| Table.TieReversesArrival | ldap-beans/src/ch/ivyteam/ivy/ldap/beans/LdapQueryBeanRS.java:604-621 | two rows "x" and "X" come out in reverse arrival order |
| Table.ShortRowFails | ldap-beans/src/ch/ivyteam/ivy/ldap/beans/LdapQueryBeanRS.java:614-621 | a row with fewer cells than headers makes the copy throw |
| Table.DropNulls | ldap-beans/src/ch/ivyteam/ivy/ldap/beans/LdapQueryBeanRS.java:630-638 | an output row keeps no null cell and has at most the cells of the table row |
| Table.DropNullsAppend | ldap-beans/src/ch/ivyteam/ivy/ldap/beans/LdapQueryBeanRS.java:633-637 | the copy skips nulls cell by cell: copying a row cut in two gives the copies of the two halves joined, so every non-null cell is kept, in order |
| Table.NullNameShiftsLeft | ldap-beans/src/ch/ivyteam/ivy/ldap/beans/LdapQueryBeanRS.java:633-637 | a row whose only null is its leading name cell loses that cell, and attribute cell k lands in column k-1, one left of its header |
| Table.DropNullsKeeps | ldap-beans/src/ch/ivyteam/ivy/ldap/beans/LdapQueryBeanRS.java:633-637 | a row without nulls is carried over cell for cell |
| Table.BuildRecordset | ldap-beans/src/ch/ivyteam/ivy/ldap/beans/LdapQueryBeanRS.java:624-641 | the copy loops build the Recordset of the headers and the null-free rows |
| Table.RecordsetShape | ldap-beans/src/ch/ivyteam/ivy/ldap/beans/LdapQueryBeanRS.java:557-642 | the result is null exactly for no rows; otherwise it is a Recordset with the headers and one row per input row |
| Bean.LdapQueryBean.MapToRecordset | ldap-beans/src/ch/ivyteam/ivy/ldap/beans/LdapQueryBeanRS.java:557-642 | null for no rows; otherwise the sort name is resolved and kept in the field, and the result is `RecordsetOf` |
| Text.CompareAntisymmetric | ldap-beans/src/ch/ivyteam/ivy/ldap/beans/LdapQueryBeanRS.java:594-609 | swapping the operands of the case-insensitive comparison negates it |
| Text.CompareTransitive | ldap-beans/src/ch/ivyteam/ivy/ldap/beans/LdapQueryBeanRS.java:594-609 | the case-insensitive comparison is transitive, so the insertion sort's order is well defined |
| Bean.GridListHoldsRows | ldap-beans/src/ch/ivyteam/ivy/ldap/beans/LdapQueryBeanRS.java:352-390 | corrected: the list stored in "all" mode holds one element per entry, the cells of that entry's row |
| Bean.RowsLostAsWritten | ldap-beans/src/ch/ivyteam/ivy/ldap/beans/LdapQueryBeanRS.java:365-376 | as written: each element of the stored list is null, unlike the corrected list |
| Bean.RecordsetFailsAsWritten | ldap-beans/src/ch/ivyteam/ivy/ldap/beans/LdapQueryBeanRS.java:581-621 | as written: with a column and at least one entry, building the Recordset throws NullPointer |
| Bean.LdapQueryBean.BuildGridValue | ldap-beans/src/ch/ivyteam/ivy/ldap/beans/LdapQueryBeanRS.java:363-391 | "all" mode's value is the corrected `GridValue`: the list of the entries' rows, or the sorted Recordset when the grid attribute holds one (see Findings for the list as written) |
| Bean.LdapQueryBean.Perform | ldap-beans/src/ch/ivyteam/ivy/ldap/beans/LdapQueryBeanRS.java:333-400 | the result is `Outcome`: filter, base object (the corrected `RootObjectName`), search, then first-only writes or setNoResult, or the corrected grid value `GridValue` written to the grid attribute |
| Bean.LdapQueryBean.FirstEntryOnly | ldap-beans/src/ch/ivyteam/ivy/ldap/beans/LdapQueryBeanRS.java:366-373 | first-only mode maps only the first entry: two searches that agree on it give the same outcome |
| Bean.LdapQueryBean.NothingFoundClearsOutputs | ldap-beans/src/ch/ivyteam/ivy/ldap/beans/LdapQueryBeanRS.java:359-362 | first-only mode with no entries runs setNoResult; when no output path leads into another, every output bound to a result key then reads null, and so does the name output when the name is included |
| Bean.LdapQueryBean.NothingFoundInGrid | ldap-beans/src/ch/ivyteam/ivy/ldap/beans/LdapQueryBeanRS.java:381-391 | "all" mode with no entries stores an empty list, or null when a Recordset is expected |
| Editor.EncodePairs | ldap-beans/src/ch/ivyteam/ivy/ldap/beans/LdapQueryBeanRS.java:1483-1534 | the two-column loops write the trimmed cells of each saved row, a single null cell as "", and stop at the first row with both cells null |
| Editor.EncodeNames | ldap-beans/src/ch/ivyteam/ivy/ldap/beans/LdapQueryBeanRS.java:1536-1549 | the one-column loop writes the trimmed names up to the first null |
| Editor.EncodeThenDecode | ldap-beans/src/ch/ivyteam/ivy/ldap/beans/LdapQueryBeanRS.java:1483-1549 | reading the written keys back with the decoder loop (:190-245) gives exactly the saved rows, with their trimmed cells; filter values also lose a leading "in."; this assumes the key after the last saved row is not set already |

## Left out

- The directory search (`JndiUtil.openDirContext`, `DirContext.search`, and the handle cleanup at :341-350 and :778-800) is an abstract function `Directory` from (base object, filter, scope) to the ordered sequence of entries. Connection errors and resource release are not modelled.
- The returning-attributes list and the returning-object flag of `SearchControls` (:283-293) are not modelled, because `Directory` does not take them.
- The server settings (:148-169) and `createJndiConfig` (:489-521) are not part of this model: they configure the directory connection only.
- `Properties.load` (:146) and its `IOException` path: the configuration is the parsed `map<string, string>`, and a null configuration string is `None`.
- `executeIvyScript` is an abstract engine from expression to value, null or script error (`Script.Engine`). The model sees only `getVariable`. A value is a string or an object known by its `toString`.
- `ivyPrint` (:860-869) is logging.
- The host types `Recordset`, `List` and `CompositeObject` are the `Composite.Data` tree. The runtime check `Recordset.class.equals(...)` (:383) is the boolean input `isRecordset`; the null pointer it raises for a null grid value is not modelled.
- `Hashtable.keys()` order: the filter table is a map, and table mode takes the enumeration order as a parameter `keys` that lists each key once. The model promises no particular order.
- Table.SortIntoTable: the 2-D array `data` is an array of rows, so the source's column-by-column shift moves whole rows. The end state is the same; the per-cell in-place update is not modelled.
- Text.CompareIgnoreCase: `compareToIgnoreCase` folds case on ASCII letters only; its full Unicode folding is not modelled. Only the sign of the comparison is used.
- Text.Trim: `String.trim` is modelled by its definition, removing characters up to U+0020 at both ends.
- The Swing editor and the widget-reading half of `getConfiguration`/`setConfiguration` (:879-1647, apart from the table loops at :1483-1549), and the lifecycle hooks `start`, `stop`, `abort`, `release` and `getAdditionalLogInfo`, are GUI and host plumbing.
- blockchain-beans/src/com/axonivy/ivy/process/element/blockchain/EthereumProperties.java holds constant strings only and is not part of this model.
- Bean.LdapQueryBean.Perform: searches under the corrected base object (`RootObjectName`) and stores the corrected row list (`GridValue`). For a quoted base object with blanks around it, the code as written searches elsewhere (`Bean.QuotedRootAsWritten`); `Bean.RootAgreesUnpadded` shows the two agree in every other case. The list as written is `Bean.GridValueAsWritten` (see Findings).
- Rows.Entry: an attribute's values are strings. A binary attribute, whose `get()` (:746, :752) is a `byte[]`, and the `ClassCastException` of the `(String)` cast at :764 in "all" mode for such values, are not modelled. The lookup of a result attribute is an exact map lookup, while `jndiAttributes.get` (:725) ignores case in the LDAP provider: a result attribute configured as "Mail" finds the server's "mail" in the program but not in the model. Attribute-name matching belongs to the directory, which is abstract here.
- Composite.SetVariable: a write that fails returns an error and no object. In the program the process data `argument` keeps the writes made before the exception, both in `appendSearchResultToRow` (:741-775) and in `setNoResult` (:528-533); those partial writes are not modelled.
- Rows.WriteAttributesReadBack: two different result attributes bound to the same output are excluded; the code writes both and the later one wins. Outputs nested in one another (`user` and `user.name`) are excluded here and in `Rows.ClearedReadsNull`, `Rows.NoResultReadsNull` and `Bean.LdapQueryBean.NothingFoundClearsOutputs`: the later write replaces or cannot reach the earlier one.

Notes on the code:
- The property keys are `search_filter_attribute_<i>`, `search_filter_value_<i>`, `result_attribute_attribute_<i>`, `result_table_attribute_<i>` and `result_table_value_<i>`.
- The sort is not stable: a tie goes above the equal rows already placed (`Table.TieGoesFirst`).
- The "arrival order when no sort attribute" branch (:586-589) cannot run. Every configuration sets the sort attribute to a string, "" by default, and an unconfigured element fails earlier with a null pointer in `getVariable` (`Table.ResolveSortName`).
- The entry name keeps the whole relative name: a search result named `cn=Alice` under a blank base gives `cn=Alice`.
- An attribute that is present but has no values adds no cell in "all" mode, so such a row is shorter than its header.

## Findings

| source | as written | input that shows it | evidently intended | confidence | as-written member | corrected member |
|---|---|---|---|---|---|---|
| ldap-beans/src/ch/ivyteam/ivy/ldap/beans/LdapQueryBeanRS.java:365-376 | `appendSearchResultToRow` assigns the new row Vector to its own parameter (:655), so `perform`'s `row` stays null and `result.add(row)` adds null for each entry | "all" mode, any non-empty search result: the stored list holds only nulls, and building a Recordset with at least one column throws NullPointer | the list holds one row Vector per entry | high (not executed) | Bean.RowsLostAsWritten | Bean.GridListHoldsRows |
| ldap-beans/src/ch/ivyteam/ivy/ldap/beans/LdapQueryBeanRS.java:474-476 | the quote test looks at the trimmed base object, but the quotes are cut from the untrimmed one | base object `" \"ou=x\""` (a leading blank) gives `"ou=x` instead of `ou=x` | the text between the quotes of the trimmed name | medium (not executed) | Bean.QuotedRootAsWritten | Bean.QuotedRoot |
