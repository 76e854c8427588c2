# OpenPlant table projection and viewer state, in Dafny

This project models three pieces of the OpenPlant iModel.js sample
applications:

- **The extensibility table component**
  (`openplant-extensibility-example`, `Table.tsx`). It takes loosely typed
  element records (`props.data`) and an allow-list of normalised property
  names (`props.displayColumns`).
  - `componentDidMount` fills every record with the fields of the catalog
    that it lacks. It then re-keys each record to the allow-listed fields
    (`getColumnNamesForDisplay`).
  - `showMUITable` derives the column descriptors and the cell texts.
    Labels come from `stringManipulator`; numbers go through
    `truncateDecimals`.
  - `onColumnChange`, `hideColumn` and `showColumn` record a column
    selection and remove or re-add columns in `state.elements`.
- **The allow-list derivation of the extensibility sample** (`App.tsx`).
  It drops the configured display properties whose status is `"Hide"` and
  normalises the names of the rest.
- **The layout state of the OpenPlant viewer** (`App.tsx`). It covers:
  - the two-flag collapse state machine of the 2D and 3D viewports;
  - the layout-id placements;
  - the viewport class names, titles and properties buttons;
  - `getViewDefinitionId`, which partitions the iModel's view definitions
    into 3D and 2D lists, sorts them by code and picks the initial view.

JavaScript objects are modelled as insertion-ordered association lists
(`Records.Record`) with the object operations the code uses:
- property read and write;
- lodash `_.pick`;
- `Object.assign`;
- the key list of a `Set`.

Numbers are exact decimals. `truncateDecimals` works over reals, and
`String(number)` is ECMAScript's Number::toString. Its choice between plain and
exponent notation is proved for every number. For integers, the printed digits
are proved to read back as the number.

The parts of the code that mutate state are modelled as classes:
- `TableComponent.Table`, with `data`, `elements` and `selectedColumns`;
- `ViewerApp.App`, with the collapse flags and the layout id;
- `ViewDefinitions.ViewState`, whose fields are the viewer's module-level
  variables.

The loops that build or update state are methods with loop invariants,
each proved equal to a specification function:
- the passes of `componentDidMount` over the records, the missing keys and
  the displayed keys;
- the two nested passes of `hideColumn` and of `showColumn`;
- the collection of selected options in `onColumnChange`;
- the word loop of `stringManipulator`;
- the `for` loop that loads the view definitions.

The pure `map`, `filter`, `findIndex` and `sort` passes are functions:
- those of `getColumnNamesForDisplay`;
- the column and cell maps of `showMUITable`;
- the allow-list filter of the sample;
- the two view sorts.

The properties the application relies on are proved about these functions
as lemmas.

`TableComponent.Table.Valid` says that every record and every defined row
has distinct keys, as every JavaScript object does. The constructor
requires it of `props.data`, and every method keeps it.

Files:
- `wrappers.dfy`: `Option` and `Result`;
- `text.dfy`: string operations;
- `numbers.dfy`: truncation and number printing;
- `records.dfy`: JavaScript objects;
- `labels.dfy`: `stringManipulator`;
- `projection.dfy`: the pure logic of the table;
- `table.dfy`: the table class and its loops;
- `sample_app.dfy`: the allow-list;
- `viewer_app.dfy`: collapse, layout, classes and titles;
- `view_definitions.dfy`: view loading and choice.

## Model

| member | source | states |
|---|---|---|
| Text.NormalizeName | openplant-extensibility-example/src/frontend/components/Table.tsx:183 | The lower-case / strip-`\s` / strip-`_` chain keeps exactly the characters of the lower-cased name that are neither white space nor `_`. So the result has no upper-case letter, no white space and no underscore, and is never longer than the input. |
| Text.NormalizedIsFixed | openplant-extensibility-example/src/frontend/components/Table.tsx:183 | A name already in normal form is left unchanged by the chain. |
| Text.NormalizeNameIdempotent | openplant-extensibility-sample/src/frontend/components/App.tsx:62 | Normalising twice gives the same name as normalising once. |
| Text.JoinSplit | openplant-extensibility-example/src/frontend/components/Table.tsx:309 | Joining the pieces of `split(x)` with x restores the string. |
| Text.SplitJoin | openplant-extensibility-example/src/frontend/components/Table.tsx:118 | Splitting a join of separator-free pieces gives back exactly those pieces. |
| Numbers.TruncateDecimalsBounds | openplant-extensibility-example/src/frontend/components/Table.tsx:319-325 | The result has the sign of x (or is 0) and is no larger in magnitude. It is less than 10^-digits away from x, and it is x·10^digits truncated toward zero, divided back. |
| Numbers.TruncateScaledBounds | openplant-extensibility-example/src/frontend/components/Table.tsx:320-324 | The same bounds for any positive multiplier. |
| Numbers.TruncateDecimalsIdempotent | openplant-extensibility-example/src/frontend/components/Table.tsx:319-325 | Truncating an already truncated number changes nothing. |
| Numbers.TruncateDecimalsExamples | openplant-extensibility-example/src/frontend/components/Table.tsx:319-325 | 1.2789 → 1.27, -1.2789 → -1.27 (toward zero, not floor), 1.999 at 0 digits → 1. |
| Numbers.TruncateDecimalsExact | openplant-extensibility-example/src/frontend/components/Table.tsx:120 | The truncated number is an exact decimal with exponent -digits and the value of `truncateDecimals`. |
| Numbers.NumberToString | openplant-extensibility-example/src/frontend/components/Table.tsx:120 | `String(number)` produces only digits, sign, point and exponent characters, and never a comma. |
| Numbers.NumberToStringTruncated | openplant-extensibility-example/src/frontend/components/Table.tsx:120 | 1.27 → "1.27" and -1.27 → "-1.27": a truncated amount prints with its two decimals and its sign. |
| Numbers.NumberToStringTrailingZeros | openplant-extensibility-example/src/frontend/components/Table.tsx:120 | 1.20 → "1.2" and 5.00 → "5": trailing zero decimals and a bare point are not printed. |
| Numbers.NumberToStringExponent | openplant-extensibility-example/src/frontend/components/Table.tsx:120 | 10^21 → "1e+21": from 21 integer digits on, exponent notation is used. |
| Numbers.NumberToStringNotation | openplant-extensibility-example/src/frontend/components/Table.tsx:120 | For every number, the text is never empty and starts with `-` exactly when the number is negative. It uses exponent notation exactly when the number is non-zero and its point position n (digit count plus exponent, after stripping trailing zeros) is above 21 or at most -6. |
| Numbers.PositiveNotation | openplant-extensibility-example/src/frontend/components/Table.tsx:120 | For a positive number, the text starts with a digit and holds an `e` exactly when the point position is above 21 or at most -6. |
| Numbers.DigitStringValue | openplant-extensibility-example/src/frontend/components/Table.tsx:120 | Reading the printed digits of n back as a decimal numeral gives n. |
| Numbers.StripKeepsValue | openplant-extensibility-example/src/frontend/components/Table.tsx:120 | Stripping trailing zeros from m × 10^e gives s × 10^p with p ≥ e and s × 10^(p-e) = m: the value is unchanged. |
| Numbers.DigitsValueZeros | openplant-extensibility-example/src/frontend/components/Table.tsx:120 | Appending z zeros to a numeral multiplies its value by 10^z. |
| Numbers.IntegerToStringShape | openplant-extensibility-example/src/frontend/components/Table.tsx:120 | Below point position 21, an integer prints as its significant digits followed by zeros. |
| Numbers.IntegerToStringValue | openplant-extensibility-example/src/frontend/components/Table.tsx:120 | An integer below point position 21 prints as plain digits whose value is exactly the number. |
| Records.Set | openplant-extensibility-example/src/frontend/components/Table.tsx:169 | Assigning a property keeps the key order and appends a new key at the end. |
| Records.SetGet | openplant-extensibility-example/src/frontend/components/Table.tsx:173 | The written key reads back the written value; every other key reads as before. |
| Records.Dedup | openplant-extensibility-example/src/frontend/components/Table.tsx:160 | A `Set`'s key list has no repetition, has the same members as the input and is no longer. |
| Records.DedupPrefix | openplant-extensibility-example/src/frontend/components/Table.tsx:160 | The key list of a prefix of the insertions is a prefix of the whole key list: keys keep their first-insertion order. |
| Records.DedupDistinct | openplant-extensibility-example/src/frontend/components/Table.tsx:160 | A list without repetition is its own `Set` key list. |
| Records.Pick | openplant-extensibility-example/src/frontend/components/Table.tsx:226 | `_.pick` has as keys the requested paths that are own keys of the object, once each, in request order. |
| Records.PickGet | openplant-extensibility-example/src/frontend/components/Table.tsx:226 | A picked key carries the source's value; anything not both requested and present is undefined. |
| Records.AssignAllKeys | openplant-extensibility-example/src/frontend/components/Table.tsx:285 | `Object.assign` keeps the target's keys in place and appends the source's new keys in source order. |
| Records.AssignAllGet | openplant-extensibility-example/src/frontend/components/Table.tsx:285 | The source's values win on every key it has; other keys keep the target's value. |
| Records.RecordExtensionality | openplant-extensibility-example/src/frontend/components/Table.tsx:171-174 | Two objects with the same keys in the same order and the same values are equal. |
| Labels.StringManipulator | openplant-extensibility-example/src/frontend/components/Table.tsx:303-317 | The loop's result is the capitalised segments joined by single spaces. |
| Labels.SplitBeforeUpperSpec | openplant-extensibility-example/src/frontend/components/Table.tsx:306 | The camel-case split loses nothing. Every piece after the first starts with an upper-case letter, and no piece has one elsewhere. A non-empty name has no empty piece. |
| Labels.UnderscoreLabel | openplant-extensibility-example/src/frontend/components/Table.tsx:309-315 | Outside camel mode the label is the character-by-character title case: `_` becomes a space, word heads are upper-cased, the rest lower-cased. |
| Labels.LabelOutsideCamelMode | openplant-extensibility-example/src/frontend/components/Table.tsx:305-309 | When the second character is not lower-case, the label is the title case of the name. |
| Labels.UpperCaseNeverCamel | openplant-extensibility-example/src/frontend/components/Table.tsx:102-104 | An upper-cased key never selects the camel-case branch. |
| Labels.ColumnLabelIsTitleCase | openplant-extensibility-example/src/frontend/components/Table.tsx:102-104 | A column label is the title case of the upper-cased key. |
| Labels.CamelLabelLength | openplant-extensibility-example/src/frontend/components/Table.tsx:310-315 | In camel mode the label is the name's length plus one separator per segment boundary. |
| Labels.LabelExampleUnderscore | openplant-extensibility-example/src/frontend/components/Table.tsx:303-317 | "MANUFACTURER_ADDRESS" → "Manufacturer Address". |
| Labels.LabelExampleCamel | openplant-extensibility-example/src/frontend/components/Table.tsx:303-317 | "manufacturerAddress" → "Manufacturer Address". |
| Labels.LabelOfTwoSegments | openplant-extensibility-example/src/frontend/components/Table.tsx:310-315 | A name cut into two words is labelled by the two capitalised words with one space between them. |
| Labels.CapitalizeLowerTail | openplant-extensibility-example/src/frontend/components/Table.tsx:312 | A word with no upper-case letter after its head is capitalised by upper-casing the head alone. |
| Labels.LabelExampleEmpty | openplant-extensibility-example/src/frontend/components/Table.tsx:303-317 | "" → "". |
| Labels.LabelExampleUpperCased | openplant-extensibility-example/src/frontend/components/Table.tsx:102 | The label of `"bBoxHigh".toUpperCase()` is "Bboxhigh". |
| Projection.Catalog | openplant-extensibility-example/src/frontend/components/Table.tsx:160 | The catalog has no repetition. It is empty for no data, and otherwise holds exactly the first record's keys. |
| Projection.CatalogIsFirstKeys | openplant-extensibility-example/src/frontend/components/Table.tsx:160 | For a well-formed first record the catalog is that record's key list, in order. |
| Projection.Absent | openplant-extensibility-example/src/frontend/components/Table.tsx:166 | The properties to blank are exactly the catalog keys the record lacks, without repetition. |
| Projection.FillSpec | openplant-extensibility-example/src/frontend/components/Table.tsx:164-170 | Filling appends `""` under every missing catalog key, in catalog order, after the record's own fields. Own values are kept, every catalog key is present, and no key is duplicated. |
| Projection.FillKeeps | openplant-extensibility-example/src/frontend/components/Table.tsx:166-170 | For any catalog, every catalog key is present after filling and the record's own values are unchanged. |
| Projection.FindIndex | openplant-extensibility-example/src/frontend/components/Table.tsx:185 | `findIndex` is the first position of the value, or -1 exactly when the value is absent. |
| Projection.NormalizedKeysSpec | openplant-extensibility-example/src/frontend/components/Table.tsx:183-186 | An allow-list entry matches some key iff it is the normal form of one of the keys. Every normalised key is in normal form, so normalising the list again changes nothing. |
| Projection.ColumnNamesForDisplay | openplant-extensibility-example/src/frontend/components/Table.tsx:181-194 | The normal forms of the result are exactly the allow-list entries some normalised key equals, in allow-list order. Each result is an input key, the first with that normal form. An empty allow-list gives []. |
| Projection.FirstKeyWithNormalForm | openplant-extensibility-example/src/frontend/components/Table.tsx:187-190 | For an allow-list entry some normalised key equals, the key found is an input key with that normal form and no earlier key has it. |
| Projection.FirstKeys | openplant-extensibility-example/src/frontend/components/Table.tsx:187-190 | Each matched allow-list entry is replaced by an input key with that normal form, one that no earlier key shares. |
| Projection.ReorderUnique | openplant-extensibility-example/src/frontend/components/Table.tsx:171-174 | The re-keyed record is the only object with the listed keys, once each in first-listed order, that reads the element's value under each of them. |
| Projection.Reorder | openplant-extensibility-example/src/frontend/components/Table.tsx:171-174 | The re-keyed record has the listed keys, once each, in first-listed order. |
| Projection.ReorderGet | openplant-extensibility-example/src/frontend/components/Table.tsx:171-174 | It carries the element's value under each listed key and nothing else. |
| Projection.MountedRowSpec | openplant-extensibility-example/src/frontend/components/Table.tsx:164-175 | A stored row has exactly the keys the allow-list selects from the filled record, with the filled record's values, and no key twice. |
| Projection.ColumnsSpec | openplant-extensibility-example/src/frontend/components/Table.tsx:92-115 | One descriptor per key of the first row, in key order. The label is the title case of the upper-cased key. It is hidden iff the key is one of the four geometry keys. Only `mANUFACTURER_ADDRESS` gets the renderer, and that column stays visible. |
| Projection.ColumnExample | openplant-extensibility-example/src/frontend/components/Table.tsx:100-102 | The `bBoxHigh` column is labelled "Bboxhigh" and hidden. |
| Projection.ReplaceCommas | openplant-extensibility-example/src/frontend/components/Table.tsx:118 | Every comma becomes a space and nothing else changes. |
| Projection.ItemTexts | openplant-extensibility-example/src/frontend/components/Table.tsx:118 | One comma-free text per nested value. |
| Projection.NumberCell | openplant-extensibility-example/src/frontend/components/Table.tsx:119-120 | A number cell prints the value truncated to two decimals and holds no comma. |
| Projection.ScalarCells | openplant-extensibility-example/src/frontend/components/Table.tsx:123 | null, undefined, strings and booleans print as `String(v)`. |
| Projection.NestedCellFields | openplant-extensibility-example/src/frontend/components/Table.tsx:117-118 | Splitting a nested cell at its commas gives back one field per nested value. |
| Projection.RowCellsSpec | openplant-extensibility-example/src/frontend/components/Table.tsx:116-123 | A cell holds a comma only if its value is nested, or is a string that holds one. The cell of a non-empty nested value splits at its commas into one field per item. |
| Projection.ShowMUITable | openplant-extensibility-example/src/frontend/components/Table.tsx:89-125 | No table while the state is unset. It throws iff the rows are empty or one is undefined. Otherwise the columns are the descriptors of row 0's keys, in order (`Columns`), and there is one row of cells per stored row (`RowCells`). |
| Projection.KeysOtherThan | openplant-extensibility-example/src/frontend/components/Table.tsx:224 | The filter keeps exactly the keys different from the column. |
| Projection.Without | openplant-extensibility-example/src/frontend/components/Table.tsx:220-229 | Reference definition: the entries whose key is not selected, in original order, no longer than the row. |
| Projection.WithoutSpec | openplant-extensibility-example/src/frontend/components/Table.tsx:220-229 | A well-formed row without the selected keys keeps exactly its unselected keys, each with its value, and reads `undefined` under every selected key. |
| Projection.HideRowIsWithout | openplant-extensibility-example/src/frontend/components/Table.tsx:222-227 | For own keys, the chain of `_.pick` calls removes exactly the selected keys from a row and keeps the rest in their order. |
| Projection.WithoutWellFormed | openplant-extensibility-example/src/frontend/components/Table.tsx:226 | Hiding keys never creates a duplicate key. |
| Projection.HideRowIdempotent | openplant-extensibility-example/src/frontend/components/Table.tsx:220-229 | Hiding the same columns twice from a row equals hiding them once. |
| Projection.HideRows | openplant-extensibility-example/src/frontend/components/Table.tsx:220-230 | `hideColumn` throws iff the selection is non-empty and some row is undefined; otherwise the row count is kept. |
| Projection.HideRowsSpec | openplant-extensibility-example/src/frontend/components/Table.tsx:220-230 | Each stored row is the prior row minus every selected key; undefined rows stay undefined; rows stay free of duplicate keys. |
| Projection.HideRowsIdempotent | openplant-extensibility-example/src/frontend/components/Table.tsx:215-233 | Hiding the same selection twice equals hiding it once. |
| Projection.KeysEqualTo | openplant-extensibility-example/src/frontend/components/Table.tsx:283 | The filter keeps exactly the keys equal to the column. |
| Projection.Candidates | openplant-extensibility-example/src/frontend/components/Table.tsx:282-286 | One candidate object per selected column. |
| Projection.CandidatesHead | openplant-extensibility-example/src/frontend/components/Table.tsx:282-287 | The kept candidate is the one built for the first selected column. |
| Projection.ShowRowsSpec | openplant-extensibility-example/src/frontend/components/Table.tsx:279-288 | Row i is undefined for an empty selection. Otherwise it keeps every key of the current row i with its value. It gains the first selected column c, with the record's value, iff the i-th record has c and the current row does not. Its keys, in order, are c (when the record has it) followed by the current row's keys, once each, which fixes the column each cell falls under. |
| Projection.ShowRowsWellFormed | openplant-extensibility-example/src/frontend/components/Table.tsx:279-288 | Every row `showColumn` stores has distinct keys. |
| Projection.ShowRowFirstColumnOnly | openplant-extensibility-example/src/frontend/components/Table.tsx:287 | An empty selection yields an undefined row; otherwise only the first selected column is used. |
| Projection.ShowRowSpec | openplant-extensibility-example/src/frontend/components/Table.tsx:283-285 | The shown row has the current row's keys plus the column if the record has it. Current values win on collision. The key order is the shown key (when the record has it) followed by the current row's keys in their order. |
| Projection.ShowIsNotInverseOfHide | openplant-extensibility-example/src/frontend/components/Table.tsx:215-292 | Hiding b from {a, b} and showing b again gives {b, a}, which is not the original row. |
| Projection.ShowSingle | openplant-extensibility-example/src/frontend/components/Table.tsx:279-288 | For one record, one current row and one selected column, `showColumn` stores the single candidate built from them. |
| Projection.SelectedValues | openplant-extensibility-example/src/frontend/components/Table.tsx:262-268 | The selection holds exactly the values of selected options and is no longer than the option list. |
| TableComponent.Table.constructor | openplant-extensibility-example/src/frontend/components/Table.tsx:27-29 | The props are stored and the state is unset; the object is valid. |
| TableComponent.Table.ComponentDidMount | openplant-extensibility-example/src/frontend/components/Table.tsx:158-179 | `props.data` is filled in place record by record. `state.elements` holds one mounted row per record. The selection is untouched. Validity is kept. The table renders iff there is at least one record; with no records `showMUITable` throws. |
| TableComponent.Table.HideColumn | openplant-extensibility-example/src/frontend/components/Table.tsx:215-233 | Nothing changes unless both state entries are set. Otherwise the rows become the hidden rows, or the call throws and leaves the state as it was. Each defined row becomes the prior row without the selected keys; undefined rows stay undefined. Validity is kept. |
| TableComponent.Table.ShowColumn | openplant-extensibility-example/src/frontend/components/Table.tsx:273-292 | Nothing changes unless both state entries are set. Otherwise the rows become the shown rows built from `props.data`. Validity is kept. An empty selection (`[]`) leaves every row undefined, so the next render throws. |
| TableComponent.Table.OnColumnChange | openplant-extensibility-example/src/frontend/components/Table.tsx:259-271 | The selection becomes the selected option values; nothing else changes. Validity is kept. |
| TableComponent.MountedWellFormed | openplant-extensibility-example/src/frontend/components/Table.tsx:164-175 | Filling a record with distinct keys keeps its keys distinct, and every mounted row has distinct keys. |
| TableComponent.MountElements | openplant-extensibility-example/src/frontend/components/Table.tsx:160-176 | The loop yields the filled records and the mounted rows, one per record. |
| TableComponent.MountRow | openplant-extensibility-example/src/frontend/components/Table.tsx:165-175 | One pass of the loop gives the filled record and the mounted row of that record. |
| TableComponent.FillMissing | openplant-extensibility-example/src/frontend/components/Table.tsx:166-170 | The blanking loop gives the filled record: every catalog key present, own values kept. |
| TableComponent.OrderElement | openplant-extensibility-example/src/frontend/components/Table.tsx:171-174 | The `forEach` gives the re-keyed record, with the listed keys once each and the element's values under them. |
| TableComponent.HideElements | openplant-extensibility-example/src/frontend/components/Table.tsx:220-229 | The loop gives the hidden rows. It fails iff the selection is non-empty and some row is undefined. |
| TableComponent.HideElement | openplant-extensibility-example/src/frontend/components/Table.tsx:222-228 | The inner loop of picks gives the row minus the selected keys. |
| TableComponent.ShowElements | openplant-extensibility-example/src/frontend/components/Table.tsx:279-288 | The loop gives the shown rows; an empty selection gives only undefined rows. |
| TableComponent.ShowCandidates | openplant-extensibility-example/src/frontend/components/Table.tsx:282-286 | The inner loop pushes one candidate per selected column. |
| TableComponent.SelectedItems | openplant-extensibility-example/src/frontend/components/Table.tsx:262-268 | The loop collects the values of the selected options, in option order. |
| SampleApp.Shown | openplant-extensibility-sample/src/frontend/components/App.tsx:58-61 | An entry is kept iff its status is not exactly "Hide"; never longer than the input. |
| SampleApp.DisplayColumns | openplant-extensibility-sample/src/frontend/components/App.tsx:58-63 | One column per kept entry, at the same position, in normal form. |
| SampleApp.ShownAppend | openplant-extensibility-sample/src/frontend/components/App.tsx:58-61 | Filtering distributes over concatenation, so kept entries keep their relative order. |
| SampleApp.ShownLength | openplant-extensibility-sample/src/frontend/components/App.tsx:58-61 | The length is unchanged iff no entry is hidden, and then the list is unchanged. |
| SampleApp.DisplayColumnsCover | openplant-extensibility-sample/src/frontend/components/App.tsx:58-63 | Every visible entry contributes its normalised name. |
| SampleApp.HiddenContributesNothing | openplant-extensibility-sample/src/frontend/components/App.tsx:58-61 | Adding a hidden entry leaves the allow-list unchanged. |
| SampleApp.DisplayColumnsFixed | openplant-extensibility-sample/src/frontend/components/App.tsx:62 | The allow-list is a fixed point of the table's key normalisation. |
| SampleApp.TableSelectsConfiguredKey | openplant-extensibility-sample/src/frontend/components/App.tsx:62 | A record key with the same normal form as a visible entry is selected by the table. |
| ViewerApp.CollapseStepSpec | openplant-viewer/src/frontend/components/App.tsx:96-101 | Never both collapsed. From nothing collapsed, exactly the flag chosen by `is3D` becomes true. From one collapsed, both become false. |
| ViewerApp.CollapseStepRoundTrip | openplant-viewer/src/frontend/components/App.tsx:97-100 | A second click, on either viewport, restores both. |
| ViewerApp.App.constructor | openplant-viewer/src/frontend/components/App.tsx:173-175 | Nothing collapsed, layout "left-2d-right-3d". |
| ViewerApp.App.ExpandCollapseViewport | openplant-viewer/src/frontend/components/App.tsx:96-101 | The flags take the collapse step and the layout is untouched. At most one viewport is collapsed. |
| ViewerApp.App.UpdateLayout | openplant-viewer/src/frontend/components/App.tsx:84-86 | The layout id is replaced; the flags are untouched. |
| ViewerApp.LayoutForSpec | openplant-viewer/src/frontend/components/App.tsx:764-779 | A known layout places 2D and 3D on opposite sides, and the id is recovered from the 2D placement. Any other id maps both to "". |
| ViewerApp.ViewportClassSpec | openplant-viewer/src/frontend/components/App.tsx:784-791 | The 2D class is collapsed if 2D is, expanded if 3D is, else the placement ("-extended" with the menu closed). The 3D class is symmetric. |
| ViewerApp.PropertiesButtonOnOneSide | openplant-viewer/src/frontend/components/App.tsx:787-794 | With a known layout and nothing collapsed exactly one viewport shows the properties button; with an unknown layout neither does. |
| ViewerApp.TitleNamesClick | openplant-viewer/src/frontend/components/App.tsx:789-796 | "Collapse 2D/3D View" collapses that viewport on click; "Show 3D/2D View" is shown only while the other is collapsed and restores both. |
| ViewDefinitions.AcceptedSpecs | openplant-viewer/src/frontend/components/App.tsx:362-368 | Exactly the orthographic and drawing view definitions are accepted. |
| ViewDefinitions.CodeLeqTotal | openplant-viewer/src/frontend/components/App.tsx:416-420 | The code order compares any two codes. |
| ViewDefinitions.CodeLeqTransitive | openplant-viewer/src/frontend/components/App.tsx:416-420 | The code order is transitive. |
| ViewDefinitions.SortByCode | openplant-viewer/src/frontend/components/App.tsx:399-400 | Sorting permutes the views. |
| ViewDefinitions.SortByCodeSorted | openplant-viewer/src/frontend/components/App.tsx:399-400 | The sorted views are in code order. |
| ViewDefinitions.ViewsPartition | openplant-viewer/src/frontend/components/App.tsx:383-397 | Every accepted view lands in exactly one of the 3D and 2D lists, and nothing else does. |
| ViewDefinitions.ViewMapSpec | openplant-viewer/src/frontend/components/App.tsx:387-391 | The map holds exactly the ids of the accepted views, each under a view carrying that id. |
| ViewDefinitions.InitialAfterNoMatch | openplant-viewer/src/frontend/components/App.tsx:393-395 | Without a matching drawing the previous initial view survives the loop. |
| ViewDefinitions.InitialAfterLastMatch | openplant-viewer/src/frontend/components/App.tsx:393-395 | With matches, the last matching drawing becomes the initial view. |
| ViewDefinitions.ChooseInitialFirstSorted | openplant-viewer/src/frontend/components/App.tsx:401-404 | With no match and no earlier initial view, the choice is a 2D view of least code, and none exactly when there are no 2D views. |
| ViewDefinitions.LookupLoaded | openplant-viewer/src/frontend/components/App.tsx:376-391 | After loading, `viewMap.get` finds a view iff some accepted definition carries the id. What it finds is the last such definition in query order. |
| ViewDefinitions.ViewMapLast | openplant-viewer/src/frontend/components/App.tsx:387-391 | The map keeps, under each of its ids, the last accepted definition carrying it: a later `set` overwrites an earlier one. |
| ViewDefinitions.LoadViews | openplant-viewer/src/frontend/components/App.tsx:380-397 | The loop builds the two lists, the map and the initial view. |
| ViewDefinitions.LoadAll | openplant-viewer/src/frontend/components/App.tsx:380-404 | The loop, both sorts and the fallback give the loaded views. |
| ViewDefinitions.LoadedSpec | openplant-viewer/src/frontend/components/App.tsx:380-404 | Both lists are sorted and together hold every accepted view once. The initial view is unset iff there was none before, no 2D view and no match. |
| ViewDefinitions.ViewState.constructor | openplant-viewer/src/frontend/components/App.tsx:41-48 | The module variables start empty: no views, no map, no drawing name. |
| ViewDefinitions.ViewState.ReadDrawingName | openplant-viewer/src/frontend/components/App.tsx:202-204 | A non-empty configured drawing name replaces the stored one; nothing else changes. |
| ViewDefinitions.ViewState.Load | openplant-viewer/src/frontend/components/App.tsx:378-405 | The lists, the map and the initial view become the loaded views of the accepted definitions; the current view becomes the initial view; the drawing name is kept. |
| ViewDefinitions.ViewState.Store | openplant-viewer/src/frontend/components/App.tsx:380-404 | The fields take the loaded lists, map and initial view, and the current view becomes the initial view. |
| ViewDefinitions.ViewState.GetViewDefinitionId | openplant-viewer/src/frontend/components/App.tsx:359-409 | No accepted view is an error that changes nothing. A given id is returned as is, with the lists untouched and the current view looked up. Otherwise the views are reloaded and the current view becomes the initial view, whose id is returned. |

## Left out

- Rendering is not part of this model. That covers the React and JSX output: `materialTheme`, `customBodyRendererColumn`, `getRows`, `getColumns`, `getSelectColumns`, the `render` methods, and the Viewport, Tree, Title and viewer Table components. Only the values `showMUITable` and the viewer's `render` compute are modelled.
- Configuration loading over Electron IPC, OIDC sign-in, iModelHub and `ConnectClient` queries, and opening and closing an `IModelConnection` are I/O. The configured display properties, the configured drawing name and the result of `imodel.views.queryProps` are parameters instead.
- `changeView`, `setupDisplayByCategories`, `SimpleViewerApp.ts` and `Group.tsx` are framework calls and DOM manipulation; they are not part of this model.
- The `alert` before the "no valid view definitions" error is a side effect on the user interface. It is not modelled.
- `console.log` calls are not modelled.
- Numbers are exact decimals, so IEEE-754 rounding (such as `1.005 * 100`) is not captured. `String(number)` prints the exact decimal; it does not pick the shortest round-trip representation of a double.
- `localeCompare` is modelled as lexicographic code-point order, not locale collation.
- ViewDefinitions.SortByCode: a stable insertion sort. Its stability is not proved; only the permutation and the order are.
- JavaScript's ordering of integer-like keys before other keys is not modelled: every key keeps insertion order.
- `setState` is an immediate field update. React's batching and the lag between a state change and the next render are not modelled.
- Case mapping covers ASCII letters only; other characters are unchanged.
- Strings are sequences of Unicode scalar values. JavaScript's `charAt`, `split` and `length` count UTF-16 code units. For a key whose first character lies outside the Basic Multilingual Plane, `charAt(1)` at Table.tsx:305 reads the second half of a surrogate pair, while `Labels.CamelMode` looks at the second character.
- Nested values are one level deep. A doubly nested object prints as `[object Object]`, and arrays and objects are not told apart.
- Records.Pick: lodash deep property paths (`"a.b"`) are not modelled. Every path is a plain key.
- Records.Pick: inherited (prototype) properties are not modelled; a path is kept only when it is an own key. `_.pick` keeps any path `in` the object, so with two or more selected columns `hideColumn` can bring back a key named after an `Object.prototype` member (`toString`, `constructor`, `valueOf`, …) with the inherited function as its value. The `Projection.HideRowIsWithout` statement holds only for rows whose keys are not such names.
- ViewDefinitions.ViewState.constructor: `views3D` and `views2D` start as empty lists rather than `undefined`. Nothing reads them before the first load.
- ViewDefinitions.ViewState.GetViewDefinitionId: `viewMap` uses the id of a view as a plain string. The non-null assertions `viewId!` and `id!` are not modelled.
- The catalog of fields that `componentDidMount` blanks comes from the first record only. This is because `new Set(...lists)` receives only the first list, whatever the comment at Table.tsx:159 says; the model follows the code.
- `"bBoxHigh"` is labelled "Bboxhigh": the key is upper-cased before `stringManipulator` sees it, so the camel-case split never applies in the table.
