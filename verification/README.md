# Build My Resume — a Dafny model of the application logic

Build My Resume is a browser-only resume builder. Its whole logic sits in
`script.js`:

- local accounts (sign-up and login against a user table in local storage);
- a builder page whose input handlers render a live HTML preview field by
  field;
- saving resumes to a per-user list, loading one back for editing, and
  deleting it from the dashboard;
- a preview page that saves a copy of the resume;
- downloading the resume as a stand-alone HTML file;
- a level filter over the template cards.

This project restates that logic as pure Dafny functions over immutable
values and proves what each part promises. The modules are:

- `Common`: optional values, flattening, and order-preserving
  sub-sequences.
- `Text`: the JavaScript string primitives the code leans on.
  - `trim` with ECMAScript's white-space set.
  - `split` on one character and its inverse `join`.
  - ASCII `toLowerCase`.
  - The UTF-16 `length`.
- `Binder`: the builder's input handlers.
  - The plain fields (name, summary), through `bindInput`.
  - The contact line.
  - The multi-line lists (experience, projects, certificates).
  - The comma-separated skills.
  - The four-part education block.
  - The whole preview, `Render`.
- `Store`: the saved resumes.
  - The builder's save: insert a new record, or update one being edited.
  - Loading a record back into the form.
  - The preview page's save.
  - Lookup by id, and delete.
- `Accounts`: the user table keyed by the trimmed, lower-cased e-mail, and
  the session.
- `Export`: the download.
  - The file name: white-space runs become `_`, with the fallback `resume`.
  - The document wrapped around the resume markup.
- `Templates`: which template cards a filter button leaves visible, and the
  template id read from the builder's address.

Behaviour worth noting:

- Deleting a resume removes every record with that id.
- Saving an edited resume whose id is no longer stored changes nothing.
- A stored list that is not valid JSON makes the page throw. The model has
  no such state.
- The name "Jo  Doe" downloads as `Jo_Doe.html`, because a white-space run
  becomes a single underscore.
- The preview page's download can never run. Its click handler
  (script.js:638-676) is attached to an anchor made by
  `document.createElement("a")`, which is never inserted into the page or
  clicked. The model's preview-page download is the handler's text: what
  it would produce if it ran.

## Model

| member | source | states |
|---|---|---|
| Text.IsWhitespace | script.js:507 | the characters `trim` and `\s` treat as white space: tab, line feed, vertical tab, form feed, carriage return, space, no-break space, the Unicode space separators, the line and paragraph separators and the byte-order mark |
| Text.Trim | script.js:273 | `trim` gives a value with no white space at either end, no longer than the input |
| Text.TrimCharacterization | script.js:273 | `trim` returns exactly the trimmed core of white space + core + white space |
| Text.TrimEmptyIff | script.js:273-279 | the trimmed value is empty exactly when the field holds only white space |
| Text.Split | script.js:309 | `split("\n")` gives one more piece than separators, no piece holds the separator, and the pieces join back to the input |
| Text.SplitJoin | script.js:370 | splitting a join of separator-free pieces gives back those pieces |
| Text.Join | script.js:344 | `join(sep)`: the parts with the separator between neighbours |
| Text.Join3 | script.js:370 | three parts join as first, separator, second, separator, third: the three-piece values that the skills and list examples split |
| Text.ToLower | script.js:98 | ASCII-only `toLowerCase`: keeps the length, maps each ASCII capital to the small letter 32 code points above it, and leaves every other character alone |
| Text.Utf16Length | script.js:106 | the JavaScript length of a password lies between its character count and twice that, and equals the character count when no character lies outside the Basic Multilingual Plane |
| Binder.BindPlain | script.js:264-282 | the section shows exactly when the field is filled; shown text is trimmed, non-empty and no longer than the input; otherwise the placeholder |
| Binder.BindPlainTrimmed | script.js:273-275 | a plain field renders the same from its trimmed value |
| Binder.BindPlainShowsCore | script.js:273-275 | a field of white space + text + white space shows just the text |
| Binder.Contact | script.js:291-296 | trimmed e-mail, or the word "email" when it is blank, then " • " and the trimmed phone only when one is given |
| Binder.ContactOfTrimmed | script.js:291-296 | e-mail alone without a phone; e-mail, bullet, phone with one |
| Binder.ContactBlankEmail | script.js:292-294 | a blank e-mail shows "email", and the phone appears trimmed |
| Binder.NonBlankLines | script.js:310 | keeps exactly the lines with non-blank content, in their order |
| Binder.NonBlankLinesCounts | script.js:310 | each non-blank line is kept as many times as it occurs, and no blank line is kept |
| Binder.NonBlankLinesAppend | script.js:310 | filtering lines distributes over concatenation |
| Binder.NonBlankLinesIdempotent | script.js:310 | filtering twice is filtering once |
| Binder.ListEntries | script.js:307-312 | every entry of a list field is non-blank and a single line |
| Binder.ListEntriesOfLines | script.js:307-312 | for any newline-separated lines that make up the trimmed value, the entries are exactly the non-blank lines, untrimmed and in order |
| Binder.FilledListHasEntry | script.js:307-316 | a filled list field always renders at least one entry |
| Binder.BindList | script.js:302-318 | visibility iff filled; when filled, one entry block per non-blank line of the trimmed value; otherwise the placeholder |
| Binder.BindListTrimmed | script.js:303 | a list field renders the same from its trimmed value |
| Binder.ListSkipsBlankLine | script.js:309-311 | two lines separated by an empty line give exactly those two entries |
| Binder.BindStacked | script.js:383-400 | for projects and certificates the element ends with the list handler's markup, and the plain handler's own section (`rProjectsSection`, where present) is shown or hidden exactly like the list handler's |
| Binder.Badges | script.js:369-371 | one badge per comma-separated segment of the trimmed value, each trimmed and comma-free |
| Binder.BadgesOfSegments | script.js:369-371 | for any comma-free segments that join to the trimmed value, the badges are those segments trimmed |
| Binder.BindSkills | script.js:363-380 | visibility iff filled; when filled, one badge span per segment; otherwise the placeholder |
| Binder.BindSkillsTrimmed | script.js:364 | the skills field renders the same from its trimmed value |
| Binder.SkillsTrimSegments | script.js:370-371 | spaces around commas do not reach the badges |
| Binder.SkillsKeepEmptySegment | script.js:370-371 | an empty segment between two commas becomes an empty badge |
| Binder.EducationDetails | script.js:340-342 | "Graduated: year" then "GPA: percentage", each only when present |
| Binder.EducationFragments | script.js:336-345 | degree title, then college subtitle, then one detail line joined by " • ", each only when present |
| Binder.BindEducation | script.js:326-355 | shown exactly when one of the four sub-fields is filled, with non-empty markup made of the trimmed sub-fields; otherwise the placeholder |
| Binder.BindEducationTrimmed | script.js:327-330 | the education block renders the same from trimmed sub-fields |
| Binder.EducationDegreeOnly | script.js:335-346 | a degree alone renders a single title line |
| Binder.Render | script.js:284-420 | the whole preview: name and experience sections show iff filled; projects and certificates end with the list handler |
| Binder.TrimForm | script.js:470-481 | every field of the saved form is trimmed, and a form already trimmed is unchanged |
| Binder.TrimmedFormFixed | script.js:470-481 | trimming a trimmed field leaves it unchanged, for each of the twelve fields |
| Binder.RenderTrimmed | script.js:264-420 | the preview depends on the form only through its trimmed values |
| Store.FindIndex | script.js:491 | `findIndex`: absent iff no record has the id; otherwise the first record with it |
| Store.Find | script.js:426 | `find`: absent iff no record has the id; otherwise the first record with that id |
| Store.FindUnique | script.js:426 | with unique ids, looking up a record's id finds that record |
| Store.LoadForm | script.js:429-440 | a record with trimmed fields loads as a trimmed form, which trimming leaves unchanged |
| Store.BuildRecord | script.js:468-484 | the stored record holds the trimmed fields, the id, the template and the time stamp, and loads back as the trimmed form |
| Store.BuilderSave | script.js:460-502 | refused iff the name or e-mail is blank; a new resume goes in front; an edited one replaces the first record with its id, other records untouched; an unknown id changes nothing |
| Store.SaveNewThenFind | script.js:496-497 | a saved new resume is found under its id |
| Store.SaveExistingThenFind | script.js:489-494 | a saved edit is found under its id |
| Store.LoadThenSave | script.js:426-484 | loading a record and saving it unchanged reproduces it, with only template and time stamp replaced |
| Store.RebuildTrimmed | script.js:429-484 | a record of trimmed fields survives load and rebuild |
| Store.ReloadRendersSame | script.js:429-450 | a saved and reloaded form renders the same preview as before saving |
| Store.BuilderSavePreserves | script.js:486-500 | the builder's save keeps ids unique and fields trimmed, given a fresh id for a new resume |
| Store.MakeHandoff | script.js:549-564 | the hand-off's twelve text fields are the trimmed form, all trimmed; it carries the template and the preview markup |
| Store.PreviewSave | script.js:604-629 | a new record always goes in front, named "My Resume" when the name is empty, template "1" when none is set, every other text field copied from the hand-off |
| Store.PreviewSaveMatchesBuilder | script.js:604-624 | the preview page stores what the builder stores for a new resume, apart from the "My Resume" name |
| Store.PreviewSavePreserves | script.js:626-628 | the preview page's save keeps the list well formed, given a fresh id |
| Store.Delete | script.js:191 | no record with the id remains, every other record remains, in order |
| Store.DeleteCounts | script.js:191 | each record without the id is kept as many times as it occurs, and none with it |
| Store.DeleteAppend | script.js:191 | deleting distributes over concatenation |
| Store.DeleteAbsent | script.js:191 | deleting an id nobody has changes nothing |
| Store.DeleteThenFind | script.js:191 | after deleting, the id is not found |
| Store.DeleteUniqueLength | script.js:191 | with unique ids, deleting removes one record if the id is present and none otherwise |
| Store.DeletePreserves | script.js:190-192 | deleting keeps the list well formed |
| Accounts.Key | script.js:98 | the account key is as long as the trimmed address, has no white space at either end and no ASCII capital |
| Accounts.KeyOfCore | script.js:98 | the key of white space + address + white space is the lower-cased address, so spellings differing only in case or surrounding white space share an account |
| Accounts.KeyIdempotent | script.js:73 | normalising a key again changes nothing |
| Accounts.KeyEmptyIff | script.js:101 | the key is empty exactly when the address is blank |
| Accounts.Signup | script.js:94-124 | missing fields, short password (under six code units) or a taken address each leave the state unchanged; otherwise the user is stored under the key and signed in |
| Accounts.Login | script.js:70-91 | the user table never changes; login succeeds iff the key has an account with the same password, and only then the session is set |
| Accounts.SignupPreserves | script.js:117-119 | sign-up keeps every user under its own normalised key with a name and a long enough password, and the session on a stored user |
| Accounts.LoginPreserves | script.js:81-83 | login keeps the same invariant |
| Accounts.SignupThenLogin | script.js:82-83 | after sign-up, any spelling of the address with the same key logs in iff the password is the one signed up with |
| Accounts.SignupTwice | script.js:111-115 | a second sign-up under the same key is refused and changes nothing |
| Export.CollapseWhitespace | script.js:507 | `replace(/\s+/g, "_")` leaves no white space and is empty iff its input is |
| Export.CollapseIdentity | script.js:507 | text without white space is unchanged |
| Export.CollapseIdempotent | script.js:507 | collapsing twice is collapsing once |
| Export.CollapseAppend | script.js:507 | cut after a non-space, each side collapses on its own |
| Export.CollapseRun | script.js:507 | a white-space run between non-spaces becomes exactly one underscore |
| Export.FileStem | script.js:640 | a non-empty stem without white space: the collapsed name, or "resume" for an empty name |
| Export.BuilderStem | script.js:507 | a blank name gives "resume" |
| Export.BuilderStemOfCore | script.js:507 | white space around the name does not reach the file name |
| Export.PreviewStemAgrees | script.js:640 | the preview page's download handler, if it ran, would name the file from the handed-over name exactly as the builder names it from the same form |
| Export.PageStem | script.js:640 | each page's stem is non-empty and free of white space (for the preview page, as its unreachable handler computes it) |
| Export.ShellOf | script.js:509-531 | the fixed text of each page's document around the title and the body (for the preview page, as its unreachable handler writes it); the only style rule that differs between the pages is the body font |
| Export.Document | script.js:509-532 | the title and the markup sit verbatim between the fixed head, middle and tail |
| Export.ExtractBody | script.js:527-529 | whatever is read back out of a document rebuilds that document |
| Export.ExtractDocument | script.js:527-529 | the markup is read back unchanged from the document |
| Export.DocumentInjective | script.js:527-529 | different markup gives different documents |
| Export.ExportPage | script.js:505-539 | the file is named stem + ".html" and holds the page's markup |
| Export.DownloadNamedByTitle | script.js:515-537 | the file name minus ".html" is the document title, non-empty and without white space |
| Templates.Display | script.js:214-225 | a card is shown iff the filter is "all", its level equals the filter, or its level is "all" |
| Templates.ApplyFilter | script.js:214-225 | the page's pass over the cards computes that visibility |
| Templates.MissingFilterMatchesMissingLevel | script.js:213-219 | a button without a filter attribute shows the cards without a level and the universal ones |
| Templates.TemplateChoice | script.js:242 | a missing or empty template parameter selects "1", any other is kept |
| Templates.ChosenTemplateSaved | script.js:620 | the template chosen in the address reaches the record the preview page saves |

## Left out

- The DOM. Input values, `data-default` placeholders and the serialised
  preview markup (`outerHTML`, `innerHTML`) are parameters. The browser's
  re-serialisation of markup is not modelled.
- Event wiring and the re-dispatch of input events after loading. `Render`
  applies every handler to the current form at once.
- Sections of `bindInput`. Its section element is the output element's id
  plus "Section" (for the name, `rNameSection`), which may not exist. The
  `visible` flag is what the handler would set if it did.
- Local storage, session storage and JSON. Users, sessions, resume lists
  and the preview hand-off are Dafny values. A corrupt stored value, which
  makes `JSON.parse` throw, is not modelled.
- Object keys. The user table is a map, so keys such as `constructor` or
  `__proto__`, which collide with the JavaScript object prototype, are not
  modelled.
- Clock and `parseInt`. `Date.now()` and `toISOString()` are the parameters
  `now` and `savedAt`. The parsed edit id is an optional integer, and a
  `NaN` id is not modelled. It behaves like an id that no record has.
- Text.ToLower: lower-cases ASCII letters only. JavaScript's `toLowerCase`
  also maps other capitals ('É' to 'é'), and some ('İ') to two code
  units, which changes the length. That needs the Unicode case tables.
- Accounts.Key: lower-cases ASCII letters only. Full Unicode `toLowerCase`
  needs the Unicode case tables.
- Export.ShellOf: keeps only the body-font rule of the style sheet, which
  is the one rule that differs between the two pages. The other rules, and
  the line breaks and indentation of the template literal, are fixed text
  that none of the properties depends on.
- Blobs, object URLs, link clicks and navigation. The download is the
  pair of file name and document text.
- Notifications, `setTimeout` redirects, session guards, logout and the
  form-switching links. These are side effects with no logic of their own.
- The delete confirmation dialog. `Store.Delete` is the confirmed case.
- The dashboard's welcome line and resume listing (script.js:144-185).
  These are display-only text.
- The builder's template class name (script.js:261) and the cards'
  `style.display`. Display is the boolean `Templates.Display` gives.
