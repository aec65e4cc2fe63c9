# Certificate modal and EAD access sheet — a Dafny model

This project models the two pieces of local logic in the academic module of the IDHS
administration front end. Everything else in that application is a call to a hosted
database or auth service.

* **The certificate modal** (`src/components/academico/CertificateModal.tsx`). It holds a
  draft certificate: student name, course name, workload as text, start and end dates,
  and an ordered list of module titles. It also holds an `isEditing` flag and a
  `showBack` flag that says whether the back ("Verso") or the front ("Frente") layout is
  mounted. The edit inputs replace single fields. The back view edits, removes
  (`filter` by index) and appends (`'Novo módulo'`) module titles. "Baixar PDF" builds a
  document and saves it as `Certificado_<name>.pdf`, where every whitespace run of the
  name becomes one `_`.
* **The EAD access sheet** (`EADAccessManagement` in
  `src/components/academico/ClassesTab.tsx`). It keeps a dictionary from student id to
  three access-date strings. The dictionary is filled from the enrolled students, edited
  one cell at a time, and saved as rows upserted into the `ead_access` table under the key
  (class id, student id).

Files:

* `wrappers.dfy`: `Option`. It stands for JavaScript's `null`, `undefined` and absent
  properties.
* `decimal.dfy`: the text an integral workload gets from `toString()`, with a parser as
  its partner.
* `certificate_draft.dfy`: the draft record and its pure operations.
* `file_name.dfy`: the `replace(/\s+/g, '_')` rewrite and the file name.
* `certificate_modal.dfy`: the modal as a class whose fields are the three state cells,
  plus the PDF writer as a class whose page list the export mutates step by step.
* `ead_access.dfy`: the access dictionary, the cell edit, the saved row and the keyed
  upsert.

The rasteriser and the PDF writer are foreign libraries. A capture is an opaque
`Snapshot(side, draft, editing)` token: it records which layout was on screen, which
draft it showed and whether it was in edit mode. A page is the list of tokens drawn on
it. A capture can fail; the handler then stops before `pdf.save`, and no file is saved.

Two behaviours of the code follow from how it is written, and the model keeps both:

* The export captures through `frontRef` (lines 47-57) and through `backRef` (lines
  59-70). The "Frente" and "Verso" layouts are the two branches of one conditional on
  `showBack` (lines 167-313), so at any one moment only one of the two refs is attached.
  If the view is not switched while the export runs, only one of the two branches runs.
  The export is then either one page with the front, or a blank first page (the page
  `new jsPDF` creates) followed by a page with the back (`PagePlanOneSide`). The model
  takes the view to be fixed for the whole export; see "## Left out".
* The file name at line 72 replaces every whitespace run with `_` and does no trimming.
  A name that starts or ends with whitespace therefore gives a leading or trailing `_`
  (`UnderscoredKeepsLeading`, `UnderscoredKeepsTrailing`).

## Model

| member | source | states |
|---|---|---|
| `Decimal.IntText` | src/components/academico/CertificateModal.tsx:31 | for an integer of magnitude below 2^53, the workload text is non-empty and starts with `-` exactly when the number is negative; the rest is all digits with no leading zero (`0` itself is the single digit `0`) |
| `Decimal.NatText` | src/components/academico/CertificateModal.tsx:31 | the digits of a natural number: non-empty, all digits, no leading zero |
| `Decimal.IntTextRoundTrip` | src/components/academico/CertificateModal.tsx:31 | for an integer of magnitude below 2^53, reading the workload text back gives the number it was made from |
| `CertificateDraft.InitialDraft` | src/components/academico/CertificateModal.tsx:28-35 | name, course and dates equal the props; the workload field is the decimal text of the workload number and reads back as it; the modules equal `courseModules` element by element |
| `CertificateDraft.With` | src/components/academico/CertificateModal.tsx:218-280 | a field setter gives the chosen field the new value, keeps the other four fields and the modules, and changes nothing exactly when the field already had that value |
| `CertificateDraft.ReplaceAt` | src/components/academico/CertificateModal.tsx:359-363 | editing module i changes entry i only; the length and every other entry stay the same |
| `CertificateDraft.RemoveAt` | src/components/academico/CertificateModal.tsx:367-369 | the index filter drops exactly the entry at an in-range index and keeps the rest in order; an out-of-range or negative index leaves the list unchanged |
| `CertificateDraft.Append` | src/components/academico/CertificateModal.tsx:378-382 | adding gives length + 1, the earlier entries untouched and `Novo módulo` last |
| `CertificateDraft.AppendThenRemove` | src/components/academico/CertificateModal.tsx:367-382 | add followed by remove at the old length restores the original list |
| `CertificateDraft.Numbered` | src/components/academico/CertificateModal.tsx:391-394 | the back list shows entry k with label k + 1 next to the k-th title |
| `CertificateDraft.RemoveRenumbers` | src/components/academico/CertificateModal.tsx:353-369 | after a removal the labels are again 1..N-1, and the titles are the remaining ones in their old order |
| `FileName.Underscored` | src/components/academico/CertificateModal.tsx:72 | the rewritten name contains no whitespace and is no longer than the name |
| `FileName.FileName` | src/components/academico/CertificateModal.tsx:72 | the file name is `Certificado_`, then the rewritten name, then `.pdf`, and it contains no whitespace |
| `FileName.UnderscoredKeepsVisible` | src/components/academico/CertificateModal.tsx:72 | every character other than whitespace and `_` is kept, in order |
| `FileName.UnderscoredIdentity` | src/components/academico/CertificateModal.tsx:72 | a name without whitespace is not changed |
| `FileName.UnderscoredIdempotent` | src/components/academico/CertificateModal.tsx:72 | rewriting twice gives the same result as rewriting once |
| `FileName.UnderscoredKeepsLeading` | src/components/academico/CertificateModal.tsx:72 | no trimming at the front: leading whitespace gives a leading `_` |
| `FileName.UnderscoredKeepsTrailing` | src/components/academico/CertificateModal.tsx:72 | no trimming at the back: trailing whitespace gives a trailing `_` |
| `FileName.UnderscoredRun` | src/components/academico/CertificateModal.tsx:72 | a whitespace run of any length becomes a single `_` |
| `FileName.UnderscoredAppend` | src/components/academico/CertificateModal.tsx:72 | the rewrite distributes over a concatenation whose seam is not inside a whitespace run |
| `FileName.UnderscoredSeparates` | src/components/academico/CertificateModal.tsx:72 | a word, then a whitespace run, then the rest, gives the word, one `_`, then the rewritten rest |
| `FileName.FileNameOfTwoWords` | src/components/academico/CertificateModal.tsx:72 | two words separated by any whitespace run (for example "Ana  Silva") give `Certificado_<first>_<last>.pdf`; with an empty second word, a name ending in whitespace gives a trailing `_` before `.pdf` |
| `CertificateModal.PagePlan` | src/components/academico/CertificateModal.tsx:40-72 | the document has 2 pages if the back is mounted and 1 otherwise; page 1 holds the front capture exactly when the front is mounted; page 2 holds the back capture |
| `CertificateModal.PagePlanOneSide` | src/components/academico/CertificateModal.tsx:167-313 | since exactly one layout is mounted, export gives either one page with the front or a blank page followed by a page with the back |
| `CertificateModal.Pdf.constructor` | src/components/academico/CertificateModal.tsx:41-45 | a new document has one blank page |
| `CertificateModal.Pdf.AddImage` | src/components/academico/CertificateModal.tsx:56 | the image is drawn on the last page and the other pages are unchanged |
| `CertificateModal.Pdf.AddPage` | src/components/academico/CertificateModal.tsx:60 | a blank page is appended |
| `CertificateModal.CertificateModalState.constructor` | src/components/academico/CertificateModal.tsx:26-35 | the modal opens on the front, in view mode, with the initial draft |
| `CertificateModal.CertificateModalState.FrontMounted` | src/components/academico/CertificateModal.tsx:167-313 | the front layout, the `frontRef` capture target, is mounted exactly when the back is not |
| `CertificateModal.CertificateModalState.BackMounted` | src/components/academico/CertificateModal.tsx:167-313 | the back layout, the `backRef` capture target, is mounted exactly when `showBack` is set |
| `CertificateModal.CertificateModalState.ToggleEdit` | src/components/academico/CertificateModal.tsx:100 | flips `isEditing` and leaves `showBack` and the draft unchanged |
| `CertificateModal.CertificateModalState.SaveEdit` | src/components/academico/CertificateModal.tsx:75-77 | leaves edit mode whatever the state was; the view and the draft are unchanged |
| `CertificateModal.CertificateModalState.ShowFront` | src/components/academico/CertificateModal.tsx:146 | mounts the front; the edit flag and the draft are unchanged |
| `CertificateModal.CertificateModalState.ShowBack` | src/components/academico/CertificateModal.tsx:156 | mounts the back; the edit flag and the draft are unchanged |
| `CertificateModal.CertificateModalState.SetField` | src/components/academico/CertificateModal.tsx:214-283 | callable only while editing the front, where the five inputs are rendered; exactly one draft field takes the new value; the other fields, the modules and both flags are unchanged |
| `CertificateModal.CertificateModalState.EditModule` | src/components/academico/CertificateModal.tsx:351-363 | callable only while editing the back, where the module inputs are rendered; only module entry i changes; the length, the other entries, the other fields and both flags are unchanged |
| `CertificateModal.CertificateModalState.RemoveModule` | src/components/academico/CertificateModal.tsx:351-369 | callable only while editing the back; drops exactly the entry at an in-range index; any other index leaves the whole draft unchanged |
| `CertificateModal.CertificateModalState.AddModule` | src/components/academico/CertificateModal.tsx:351-382 | callable only while editing the back; appends `Novo módulo` and keeps everything else |
| `CertificateModal.CertificateModalState.GeneratePdf` | src/components/academico/CertificateModal.tsx:40-73 | nothing is saved exactly when the capture of a mounted layout fails (a rejected `html2canvas` ends the handler before `pdf.save`); otherwise the saved document follows the page plan for the mounted layout (front mounted gives one page with the front capture, back mounted gives a blank page and then the back capture) and the file name is `Certificado_` plus the rewrite of the draft's student name plus `.pdf` |
| `CertificateModal.ToggleEditTwice` | src/components/academico/CertificateModal.tsx:100 | pressing "Editar" twice restores the whole state |
| `CertificateModal.SaveEditTwice` | src/components/academico/CertificateModal.tsx:75-77 | finishing the edit is idempotent and never touches the draft or the view |
| `CertificateModal.AddThenRemoveModule` | src/components/academico/CertificateModal.tsx:351-382 | while editing the back, adding a module and then removing the new entry restores the whole state |
| `EadAccess.OrEmpty` | src/components/academico/ClassesTab.tsx:8-10 | the `or ''` fallback keeps a present non-empty string and gives `''` otherwise |
| `EadAccess.OrNull` | src/components/academico/ClassesTab.tsx:26-28 | the `or null` fallback is null exactly when the value is missing or empty, and is the value otherwise |
| `EadAccess.InitialEntry` | src/components/academico/ClassesTab.tsx:7-11 | each of the three dates is the stored value if truthy and `''` otherwise; all three properties are present |
| `EadAccess.StoredDate` | src/components/academico/ClassesTab.tsx:8-10 | a student without stored access data gives `''`; otherwise the stored date if non-empty and `''` if it is missing or empty |
| `EadAccess.InitialAccess` | src/components/academico/ClassesTab.tsx:6-12 | the initial dictionary has no more entries than there are students, and every entry has all three dates present |
| `EadAccess.InitialAccessKeys` | src/components/academico/ClassesTab.tsx:4-13 | the initial dictionary has an entry exactly for each enrolled student id |
| `EadAccess.InitialAccessLastWins` | src/components/academico/ClassesTab.tsx:6-12 | the entry of an id is built from the last student with that id, so a later duplicate overwrites an earlier one |
| `EadAccess.BuildAccessMap` | src/components/academico/ClassesTab.tsx:4-13 | the loop fills the dictionary with one entry per enrolled id, and the last occurrence of an id wins |
| `EadAccess.WithDate` | src/components/academico/ClassesTab.tsx:114-116 | sets the edited date and keeps the other two properties as they were, present or absent |
| `EadAccess.EditCell` | src/components/academico/ClassesTab.tsx:111-117 | only date k of student s changes; s's other two dates and every other student's entry are unchanged; a student without an entry gets one holding only the edited date |
| `EadAccess.CellValue` | src/components/academico/ClassesTab.tsx:109 | an input shows `''` when the student's entry or that date is missing, and the stored date otherwise |
| `EadAccess.EditCellShows` | src/components/academico/ClassesTab.tsx:109-117 | after an edit the edited input shows the new value and every other input shows what it showed before |
| `EadAccess.RowFor` | src/components/academico/ClassesTab.tsx:23-28 | a saved row carries the class id and the student id; each date is null exactly when it is missing or empty, and is kept otherwise |
| `EadAccess.Upsert` | src/components/academico/ClassesTab.tsx:19-33 | the row is stored under its (class id, student id) key and every other key keeps its row |
| `EadAccess.UpsertSameKeyTwice` | src/components/academico/ClassesTab.tsx:32 | saving the same student twice leaves one row, holding the later dates |
| `EadAccess.SaveAccess` | src/components/academico/ClassesTab.tsx:16-33 | saving one student fails exactly when the student has no entry; otherwise it upserts that student's row |
| `EadAccess.RowsToSave` | src/components/academico/ClassesTab.tsx:40-60 | save-all writes no more rows than there are students |
| `EadAccess.UpsertAll` | src/components/academico/ClassesTab.tsx:44-58 | a run of upserts never removes a key, and the last row written is stored under its key |
| `EadAccess.RowsToSaveSpec` | src/components/academico/ClassesTab.tsx:40-60 | every row save-all writes belongs to the class, is for an enrolled student who has an entry, and carries that student's current dates; every student with an entry gets a row |
| `EadAccess.EntryPositions` | src/components/academico/ClassesTab.tsx:40-43 | lists, in strictly increasing order, exactly the positions of the students that have an entry: each listed position is inside the list and has an entry, and every student with an entry is listed |
| `EadAccess.RowsToSaveOrder` | src/components/academico/ClassesTab.tsx:40-60 | save-all writes exactly one row per student with an entry, in list order: there are as many rows as positions in `EntryPositions`, and row j is the current row of the student at the j-th position |
| `EadAccess.UpsertAllKeys` | src/components/academico/ClassesTab.tsx:44-58 | after the upserts a key holds a row exactly when it held one before or one of the rows written has that key |
| `EadAccess.UpsertAllValues` | src/components/academico/ClassesTab.tsx:44-58 | a written key holds one of the rows written with that key; a key no row was written to keeps its old row |
| `EadAccess.UpsertAllLastWins` | src/components/academico/ClassesTab.tsx:44-58 | upserts are last-write-wins: a key holds the last row written with that key |
| `EadAccess.SaveAllTable` | src/components/academico/ClassesTab.tsx:39-64 | after save-all each student with an entry has its current row under its key, no key is added except for enrolled students with an entry of this class, and every other row is unchanged (`SavedAll`) |
| `EadAccess.SaveAll` | src/components/academico/ClassesTab.tsx:39-64 | the loop writes the rows in student order and skips students without an entry; the table it leaves satisfies `SavedAll`: each such student's key holds its current row, no other keys are added, and rows under other keys are unchanged |

## Left out

- `src/contexts/AuthContext.tsx` is not part of this model. It wraps the hosted auth client and `localStorage`, and its behaviour is driven by asynchronous session callbacks.
- The rasteriser and the PDF writer are not modelled inside: `html2canvas`, `toDataURL`, the A4 landscape page size in mm, and `addImage` scaling. They are foreign libraries, so a capture is an opaque token, and whether a capture succeeds is a parameter of `GeneratePdf`. A failure inside `toDataURL`, `addImage` or `save` is not modelled.
- `formatDate` and `today` are left out. They depend on JavaScript `Date` parsing, the `pt-BR` locale and the wall clock, and they only feed the rendered text.
- JSX layout and CSS are left out, and so are the fixed texts, the signature block and the logo. This includes the upper-case display of the name, which is CSS only; the stored name is never upper-cased.
- I/O is left out: the Supabase calls, the `updated_at` timestamp, `alert`, `onUpdate`, the error object an upsert returns, and `onClose`. The table is modelled as a map keyed by (class id, student id).
- The React `useEffect` re-run timing is left out. The initial dictionary is modelled as a function of the student list.
- Async interleaving is left out. Two exports, or two save-all runs, can overlap in the source. Within one export, the model captures both sides from the same draft, with no edits and no view switch during the `await`s. In the source, clicking "Verso" while `html2canvas` captures the front (line 48) attaches `backRef` before the test at line 59, so the export then also captures the back and gives a front page followed by a back page; `GeneratePdf` and `PagePlanOneSide` do not cover that run.
- CertificateModal.CertificateModalState.SaveEdit: callable in every state, although "Concluir Edição" is rendered only while editing (lines 119-126). Outside edit mode it would change nothing, and `SaveEditTwice` relies on calling it twice. "Editar", "Frente", "Verso" and "Baixar PDF" are rendered in every state, as their methods allow.
- Decimal.IntText: models `toString()` for integral workloads of magnitude below 2^53 only, and requires that range. JavaScript numbers at or above 2^53 lose their low digits, and from 10^21 `toString()` writes exponent form, so the model does not promise the text for those. `CertificateDraft.InitialDraft` and the `CertificateModalState` constructor carry the same requirement. Non-integral, `NaN` and infinite workloads are not modelled either.
- CertificateModal.CertificateModalState.EditModule: requires an index inside the list. The index always comes from mapping over the current list; an out-of-range write would leave holes in a JavaScript array, and that is not modelled.
- The stored access dates are assumed to be strings or null, as the table's date columns deliver them.
