/**
 * The editable certificate draft (`editableData` of the certificate modal) and the pure
 * operations its input handlers apply to it: the record-spread field setters and the
 * copy/replace, `filter` and append operations on the ordered list of module titles.
 */
module CertificateDraft {
  import Decimal
  import opened Wrappers

  /** Every field is always defined; the empty string is the "unset" value. */
  datatype Draft = Draft(
    studentName: string,
    courseName: string,
    workload: string,
    startDate: string,
    endDate: string,
    modules: seq<string>)

  /** The five text fields that have their own input on the front view. */
  datatype Field = StudentName | CourseName | Workload | StartDate | EndDate

  /** Title given to a module added with the "Adicionar Módulo" button. */
  const NewModuleTitle: string := "Novo módulo"

  /**
   * The draft built from the modal's props: the workload number becomes its decimal
   * text and the module list is copied.
   */
  function InitialDraft(studentName: string, courseName: string, courseModules: seq<string>,
                        workload: int, startDate: string, endDate: string): (d: Draft)
    requires Decimal.IsSafe(workload)
    ensures d.workload == Decimal.IntText(workload)
    ensures Decimal.ParseInt(d.workload) == Some(workload)
    ensures |d.modules| == |courseModules|
    ensures forall k :: 0 <= k < |courseModules| ==> d.modules[k] == courseModules[k]
    ensures Get(d, StudentName) == studentName && Get(d, CourseName) == courseName
    ensures Get(d, StartDate) == startDate && Get(d, EndDate) == endDate
  {
    Decimal.IntTextRoundTrip(workload);
    Draft(studentName, courseName, Decimal.IntText(workload), startDate, endDate, courseModules)
  }

  function Get(d: Draft, f: Field): string {
    match f
    case StudentName => d.studentName
    case CourseName => d.courseName
    case Workload => d.workload
    case StartDate => d.startDate
    case EndDate => d.endDate
  }

  /** `{ ...editableData, <field>: value }`: one field replaced, everything else kept. */
  function With(d: Draft, f: Field, value: string): (r: Draft)
    ensures Get(r, f) == value
    ensures forall g :: g != f ==> Get(r, g) == Get(d, g)
    ensures r.modules == d.modules
    ensures r == d <==> Get(d, f) == value
  {
    match f
    case StudentName => d.(studentName := value)
    case CourseName => d.(courseName := value)
    case Workload => d.(workload := value)
    case StartDate => d.(startDate := value)
    case EndDate => d.(endDate := value)
  }

  /** Copy of the list with entry `index` replaced, as the module input's `onChange` does. */
  function ReplaceAt(modules: seq<string>, index: nat, value: string): (r: seq<string>)
    requires index < |modules|
    ensures |r| == |modules| && r[index] == value
    ensures forall k :: 0 <= k < |modules| && k != index ==> r[k] == modules[k]
  {
    modules[index := value]
  }

  /**
   * `modules.filter((_, i) => i !== index)`: walks the list keeping every element whose
   * position differs from `index`. Any integer is accepted; one that names no position
   * keeps the whole list.
   */
  function RemoveAt(modules: seq<string>, index: int): (r: seq<string>)
    ensures 0 <= index < |modules| ==> r == modules[..index] + modules[index + 1..]
    ensures !(0 <= index < |modules|) ==> r == modules
    decreases |modules|
  {
    if modules == [] then []
    else
      var rest := RemoveAt(modules[1..], index - 1);
      assert modules == [modules[0]] + modules[1..];
      assert 0 < index < |modules| ==>
        modules[..index] == [modules[0]] + modules[1..][..index - 1] && modules[index + 1..] == modules[1..][index..];
      (if index == 0 then [] else [modules[0]]) + rest
  }

  /** `[...modules, 'Novo módulo']`. */
  function Append(modules: seq<string>): (r: seq<string>)
    ensures |r| == |modules| + 1 && r[..|modules|] == modules && r[|modules|] == NewModuleTitle
  {
    modules + [NewModuleTitle]
  }

  /** Adding a module and then removing the entry it created gives back the original list. */
  lemma AppendThenRemove(modules: seq<string>)
    ensures RemoveAt(Append(modules), |modules|) == modules
  {
    assert Append(modules)[..|modules|] == modules;
  }

  /**
   * The back view's numbered list: entry k is shown with label k + 1 (the `{index + 1}.`
   * span) next to the k-th title.
   */
  function Numbered(modules: seq<string>): (r: seq<(nat, string)>)
    ensures |r| == |modules|
    ensures forall k :: 0 <= k < |r| ==> r[k].0 == k + 1 && r[k].1 == modules[k]
  {
    seq(|modules|, k requires 0 <= k < |modules| => (k + 1, modules[k]))
  }

  /**
   * Removing an entry renumbers the rest: the labels are again 1..N-1 and the titles
   * are the remaining ones in their old order.
   */
  lemma RemoveRenumbers(modules: seq<string>, index: nat)
    requires index < |modules|
    ensures var r := Numbered(RemoveAt(modules, index));
      && |r| == |modules| - 1
      && (forall k :: 0 <= k < |r| ==> r[k].0 == k + 1)
      && (forall k :: 0 <= k < index ==> r[k].1 == modules[k])
      && (forall k :: index <= k < |r| ==> r[k].1 == modules[k + 1])
  {
  }
}
