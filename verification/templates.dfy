/**
  Choosing a template: the dashboard's level filter over the template
  cards, and the template id the builder reads from its address.
 */
module Templates {
  import opened Common
  import opened Binder
  import opened Store

  /** The keyword that matches every level, on a button or on a card. */
  const Everything: string := "all"

  /** Whether a card with level attribute `level` stays visible when the
      button with filter attribute `filter` is chosen. A missing attribute
      is `None`, and two missing attributes compare equal. */
  predicate CardShown(filter: Option<string>, level: Option<string>) {
    filter == Some(Everything) || level == filter || level == Some(Everything)
  }

  /** The visibility of every card, in page order, after a filter click.
      The "all" button shows every card, and a specific level shows exactly
      its own cards and the universal ones. */
  function Display(filter: Option<string>, levels: seq<Option<string>>): (shown: seq<bool>)
    ensures |shown| == |levels|
    ensures forall i :: 0 <= i < |levels| ==>
      (shown[i] <==> filter == Some(Everything) || levels[i] == filter || levels[i] == Some(Everything))
  {
    if levels == [] then []
    else [CardShown(filter, levels[0])] + Display(filter, levels[1..])
  }

  /** The same computation as the page does it: one pass over the cards. */
  method ApplyFilter(filter: Option<string>, levels: seq<Option<string>>) returns (shown: seq<bool>)
    ensures shown == Display(filter, levels)
  {
    shown := [];
    var i := 0;
    while i < |levels|
      invariant 0 <= i <= |levels|
      invariant |shown| == i
      invariant forall j :: 0 <= j < i ==> shown[j] == CardShown(filter, levels[j])
    {
      shown := shown + [CardShown(filter, levels[i])];
      i := i + 1;
    }
  }

  /** A button without a filter attribute shows the cards without a level
      attribute, and the universal ones. */
  lemma MissingFilterMatchesMissingLevel(levels: seq<Option<string>>, i: int)
    requires 0 <= i < |levels|
    ensures Display(None, levels)[i] <==> levels[i] == None || levels[i] == Some(Everything)
  {
  }

  /** The template used when the address names none. */
  const DefaultTemplate: string := "1"

  /** `params.get("template") || "1"`: a missing or empty parameter selects
      the first template. */
  function TemplateChoice(param: Option<string>): (t: string)
    ensures t != []
    ensures param.Some? && param.value != [] ==> t == param.value
    ensures param.None? || param.value == [] ==> t == DefaultTemplate
  {
    if param.Some? && param.value != [] then param.value else DefaultTemplate
  }

  /** The template chosen in the address reaches the record saved from the
      preview page unchanged. */
  lemma ChosenTemplateSaved(param: Option<string>, f: Form, html: string, now: int,
                            savedAt: string, s: seq<Resume>)
    ensures PreviewSave(MakeHandoff(f, TemplateChoice(param), html), now, savedAt, s)[0].template
            == TemplateChoice(param)
  {
  }
}
