/**
 * The certificate modal's state and handlers: the `isEditing` and `showBack` cells, the
 * draft cell, and the export handler that fills one PDF document step by step.
 * The rasteriser and the PDF writer are foreign libraries; a captured view is an opaque
 * `Image` token that records what was on screen, and a page is the list of images
 * drawn on it.
 */
module CertificateModal {
  import opened Wrappers
  import opened CertificateDraft
  import FileName
  import Decimal

  /** The two mutually exclusive layouts: "Frente" and "Verso". */
  datatype Side = Front | Back

  /** What the rasteriser captured: which layout, showing which draft, in which mode. */
  datatype Image = Snapshot(side: Side, draft: Draft, editing: bool)

  /** The PDF document being assembled, as the writer object that is mutated in place. */
  class Pdf {
    /** The pages in order; each holds the images drawn on it, in order. */
    var pages: seq<seq<Image>>

    /** A new document already has one blank page. */
    constructor ()
      ensures pages == [[]]
    {
      pages := [[]];
    }

    /** Draws an image on the current (last) page. */
    method AddImage(image: Image)
      requires pages != []
      modifies this
      ensures |pages| == |old(pages)|
      ensures pages == old(pages)[..|old(pages)| - 1] + [old(pages)[|old(pages)| - 1] + [image]]
    {
      pages := pages[..|pages| - 1] + [pages[|pages| - 1] + [image]];
    }

    /** Appends a blank page, which becomes the current page. */
    method AddPage()
      modifies this
      ensures pages == old(pages) + [[]]
    {
      pages := pages + [[]];
    }
  }

  /**
   * The pages export produces, given which of the two capture targets is mounted: one
   * page to start, the front image on it if the front is mounted, then a second page
   * with the back image if the back is mounted.
   */
  function PagePlan(frontMounted: bool, backMounted: bool, front: Image, back: Image)
    : (pages: seq<seq<Image>>)
    ensures |pages| == if backMounted then 2 else 1
    ensures pages[0] == if frontMounted then [front] else []
    ensures backMounted ==> pages[1] == [back]
  {
    [if frontMounted then [front] else []] + (if backMounted then [[back]] else [])
  }

  /**
   * Exactly one layout is mounted, so export never holds both sides: it is either one
   * page with the front, or a blank first page followed by the back.
   */
  lemma PagePlanOneSide(showBack: bool, front: Image, back: Image)
    ensures var pages := PagePlan(!showBack, showBack, front, back);
      && (!showBack ==> pages == [[front]])
      && (showBack ==> pages == [[], [back]])
  {
  }

  class CertificateModalState {
    var isEditing: bool
    var showBack: bool
    var draft: Draft

    /** The modal opens in view mode on the front, with the draft built from its props. */
    constructor (studentName: string, courseName: string, courseModules: seq<string>,
                 workload: int, startDate: string, endDate: string)
      requires Decimal.IsSafe(workload)
      ensures !isEditing && !showBack
      ensures draft == InitialDraft(studentName, courseName, courseModules, workload, startDate, endDate)
    {
      isEditing := false;
      showBack := false;
      draft := InitialDraft(studentName, courseName, courseModules, workload, startDate, endDate);
    }

    /** The "Editar"/"Salvar" button flips the edit flag and touches nothing else. */
    method ToggleEdit()
      modifies this
      ensures isEditing == !old(isEditing)
      ensures showBack == old(showBack) && draft == old(draft)
    {
      isEditing := !isEditing;
    }

    /** "Concluir Edição" leaves edit mode; the draft is kept as it is. */
    method SaveEdit()
      modifies this
      ensures !isEditing
      ensures showBack == old(showBack) && draft == old(draft)
    {
      isEditing := false;
    }

    /** The "Frente" button. */
    method ShowFront()
      modifies this
      ensures !showBack
      ensures isEditing == old(isEditing) && draft == old(draft)
    {
      showBack := false;
    }

    /** The "Verso" button. */
    method ShowBack()
      modifies this
      ensures showBack
      ensures isEditing == old(isEditing) && draft == old(draft)
    {
      showBack := true;
    }

    /** One of the five front-view inputs, rendered only while editing the front, changes its field. */
    method SetField(field: Field, value: string)
      requires isEditing && !showBack
      modifies this
      ensures draft == With(old(draft), field, value)
      ensures Get(draft, field) == value
      ensures forall g :: g != field ==> Get(draft, g) == Get(old(draft), g)
      ensures draft.modules == old(draft.modules)
      ensures isEditing == old(isEditing) && showBack == old(showBack)
    {
      draft := With(draft, field, value);
    }

    /** The input of module `index`, rendered only while editing the back, changes that title. */
    method EditModule(index: nat, value: string)
      requires isEditing && showBack
      requires index < |draft.modules|
      modifies this
      ensures draft == old(draft).(modules := ReplaceAt(old(draft.modules), index, value))
      ensures |draft.modules| == |old(draft.modules)| && draft.modules[index] == value
      ensures forall k :: 0 <= k < |draft.modules| && k != index ==> draft.modules[k] == old(draft.modules)[k]
      ensures isEditing == old(isEditing) && showBack == old(showBack)
    {
      draft := draft.(modules := ReplaceAt(draft.modules, index, value));
    }

    /**
     * The remove control of module `index`, rendered only while editing the back; an index
     * naming no module changes nothing.
     */
    method RemoveModule(index: int)
      requires isEditing && showBack
      modifies this
      ensures draft == old(draft).(modules := RemoveAt(old(draft.modules), index))
      ensures 0 <= index < |old(draft.modules)| ==>
        draft.modules == old(draft.modules)[..index] + old(draft.modules)[index + 1..]
      ensures !(0 <= index < |old(draft.modules)|) ==> draft == old(draft)
      ensures isEditing == old(isEditing) && showBack == old(showBack)
    {
      draft := draft.(modules := RemoveAt(draft.modules, index));
    }

    /** "Adicionar Módulo", rendered only while editing the back, appends the placeholder title. */
    method AddModule()
      requires isEditing && showBack
      modifies this
      ensures draft == old(draft).(modules := Append(old(draft.modules)))
      ensures draft.modules == old(draft.modules) + [NewModuleTitle]
      ensures isEditing == old(isEditing) && showBack == old(showBack)
    {
      draft := draft.(modules := Append(draft.modules));
    }

    /**
     * The front layout, and with it the `frontRef` capture target, is mounted: the two
     * layouts are the branches of one conditional, so exactly one of them is.
     */
    predicate FrontMounted()
      reads this
      ensures FrontMounted() <==> !BackMounted()
    {
      !showBack
    }

    /** The back layout, and with it the `backRef` capture target, is mounted. */
    predicate BackMounted()
      reads this
      ensures BackMounted() <==> showBack
    {
      showBack
    }

    /**
     * "Baixar PDF": a new one-page document; the front is captured onto page 1 if it is
     * mounted; if the back is mounted a page is added and the back is captured onto it;
     * then the document is saved. Each capture may fail (`frontCaptured`, `backCaptured`
     * say whether the rasteriser's promise resolves): a failed capture ends the handler
     * before the save, so nothing is saved (`None`). Returns the document as it stands and
     * the name it is saved under.
     */
    method GeneratePdf(frontCaptured: bool, backCaptured: bool) returns (pdf: Pdf, saved: Option<string>)
      ensures fresh(pdf)
      ensures saved.None? <==> (FrontMounted() && !frontCaptured) || (BackMounted() && !backCaptured)
      ensures saved.Some? ==> saved.value == FileName.FileName(draft.studentName)
      ensures saved.Some? ==> pdf.pages == PagePlan(FrontMounted(), BackMounted(),
                                                    Snapshot(Front, draft, isEditing), Snapshot(Back, draft, isEditing))
      ensures saved.Some? && !showBack ==> pdf.pages == [[Snapshot(Front, draft, isEditing)]]
      ensures saved.Some? && showBack ==> pdf.pages == [[], [Snapshot(Back, draft, isEditing)]]
      ensures saved.None? ==> pdf.pages == if showBack then [[], []] else [[]]
    {
      var front, back := Snapshot(Front, draft, isEditing), Snapshot(Back, draft, isEditing);
      pdf := new Pdf();
      if FrontMounted() {
        if !frontCaptured {
          return pdf, None;
        }
        pdf.AddImage(front);
        assert [] + [front] == [front];
        assert pdf.pages == [[front]];
      }
      if BackMounted() {
        pdf.AddPage();
        assert pdf.pages == [[], []];
        if !backCaptured {
          return pdf, None;
        }
        pdf.AddImage(back);
        assert [] + [back] == [back];
        assert pdf.pages == [[], [back]];
      }
      saved := Some(FileName.FileName(draft.studentName));
      PagePlanOneSide(showBack, front, back);
    }
  }

  /** Pressing "Editar" twice gives back the state before the first press. */
  method ToggleEditTwice(m: CertificateModalState)
    modifies m
    ensures m.isEditing == old(m.isEditing) && m.showBack == old(m.showBack) && m.draft == old(m.draft)
  {
    m.ToggleEdit();
    m.ToggleEdit();
  }

  /** Finishing the edit twice is the same as finishing it once. */
  method SaveEditTwice(m: CertificateModalState)
    modifies m
    ensures !m.isEditing && m.showBack == old(m.showBack) && m.draft == old(m.draft)
  {
    m.SaveEdit();
    m.SaveEdit();
  }

  /** Adding a module and removing the entry it created leaves the module list as it was. */
  method AddThenRemoveModule(m: CertificateModalState)
    requires m.isEditing && m.showBack
    modifies m
    ensures m.draft == old(m.draft) && m.isEditing == old(m.isEditing) && m.showBack == old(m.showBack)
  {
    var before := m.draft.modules;
    m.AddModule();
    m.RemoveModule(|before|);
    AppendThenRemove(before);
  }
}
