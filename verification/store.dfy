/**
  The per-user resume collection and the operations the pages perform on
  it: the builder's save (update in place or prepend), the preview page's
  save (always prepend), the dashboard's delete, and the builder's lookup of
  the record to edit.

  The collection is the decoded value stored under the user's key; reading
  and writing browser storage and the JSON encoding are outside the model.
  Clock readings (the new record's id and its save time) are parameters.
 */
module Store {
  import opened Common
  import opened Text
  import opened Binder

  /** One saved resume. A field absent from the stored object reads as "". */
  datatype Resume = Resume(
    id: int, name: string, email: string, phone: string, summary: string,
    experience: string, collegeName: string, degree: string,
    graduationYear: string, percentage: string, skills: string,
    projects: string, certificates: string, template: string,
    savedAt: string)

  /** The data the builder hands to the preview page: the trimmed fields,
      the template and the rendered preview markup. */
  datatype Handoff = Handoff(
    name: string, email: string, phone: string, summary: string,
    experience: string, collegeName: string, degree: string,
    graduationYear: string, percentage: string, skills: string,
    projects: string, certificates: string, template: string,
    htmlPreview: string)

  /** The builder refuses to save without a name and an e-mail; otherwise it
      writes back a collection. */
  datatype SaveOutcome = MissingNameOrEmail | Saved(resumes: seq<Resume>)

  /** No text field of the record has white space at either end. */
  predicate FieldsTrimmed(r: Resume) {
    && IsTrimmed(r.name) && IsTrimmed(r.email) && IsTrimmed(r.phone)
    && IsTrimmed(r.summary) && IsTrimmed(r.experience) && IsTrimmed(r.collegeName)
    && IsTrimmed(r.degree) && IsTrimmed(r.graduationYear) && IsTrimmed(r.percentage)
    && IsTrimmed(r.skills) && IsTrimmed(r.projects) && IsTrimmed(r.certificates)
  }

  predicate UniqueIds(s: seq<Resume>) {
    forall i, j :: 0 <= i < j < |s| ==> s[i].id != s[j].id
  }

  predicate HasId(s: seq<Resume>, id: int) {
    exists i :: 0 <= i < |s| && s[i].id == id
  }

  /** What every save path leaves in storage: ids that tell the records
      apart and text fields without surrounding white space. */
  predicate WellFormed(s: seq<Resume>) {
    UniqueIds(s) && forall i :: 0 <= i < |s| ==> FieldsTrimmed(s[i])
  }

  // ---------------------------------------------------------------------
  // Lookup
  // ---------------------------------------------------------------------

  /** `findIndex((r) => r.id === id)`: the position of the first record with
      the id, or nothing when no record has it. */
  function FindIndex(s: seq<Resume>, id: int): (k: Option<nat>)
    ensures k.None? <==> !HasId(s, id)
    ensures k.Some? ==> k.value < |s| && s[k.value].id == id
    ensures k.Some? ==> forall j :: 0 <= j < k.value ==> s[j].id != id
  {
    if s == [] then None
    else if s[0].id == id then Some(0)
    else
      var k := FindIndex(s[1..], id);
      assert forall j :: 1 <= j < |s| ==> s[j] == s[1..][j - 1];
      if k.None? then None else Some(k.value + 1)
  }

  /** `find((r) => r.id === id)`: the first record with the id. */
  function Find(s: seq<Resume>, id: int): (r: Option<Resume>)
    ensures r.None? <==> !HasId(s, id)
    ensures r.Some? ==> r.value in s && r.value.id == id
    ensures r.Some? ==> exists k :: 0 <= k < |s| && s[k] == r.value
                          && forall j :: 0 <= j < k ==> s[j].id != id
  {
    match FindIndex(s, id)
    case None => None
    case Some(k) => Some(s[k])
  }

  /** In a collection with unique ids, the record found for an id is the
      one at its position. */
  lemma FindUnique(s: seq<Resume>, i: int)
    requires UniqueIds(s) && 0 <= i < |s|
    ensures FindIndex(s, s[i].id) == Some(i)
    ensures Find(s, s[i].id) == Some(s[i])
  {
  }

  // ---------------------------------------------------------------------
  // Builder: load into the form, save from the form
  // ---------------------------------------------------------------------

  /** Loading a record into the builder's inputs. A record the builder
      stored loads as a trimmed form, which trimming again leaves as it is. */
  function LoadForm(r: Resume): (f: Form)
    ensures FormTrimmed(f) <==> FieldsTrimmed(r)
    ensures FieldsTrimmed(r) ==> TrimForm(f) == f
  {
    Form(r.name, r.email, r.phone, r.summary, r.experience, r.collegeName,
         r.degree, r.graduationYear, r.percentage, r.skills, r.projects,
         r.certificates)
  }

  /** The record the builder assembles: every text field trimmed, the
      template taken from the page address as is. */
  function BuildRecord(f: Form, id: int, template: string, savedAt: string): (r: Resume)
    ensures FieldsTrimmed(r)
    ensures r.id == id && r.template == template && r.savedAt == savedAt
    ensures LoadForm(r) == TrimForm(f)
  {
    Resume(id, Trim(f.name), Trim(f.email), Trim(f.phone), Trim(f.summary),
           Trim(f.experience), Trim(f.collegeName), Trim(f.degree),
           Trim(f.graduationYear), Trim(f.percentage), Trim(f.skills),
           Trim(f.projects), Trim(f.certificates), template, savedAt)
  }

  /** The builder's save. `editing` is the id from the page address (absent
      for a new resume) and `now` the clock reading used as a new id.
      Without a name or e-mail nothing is written. With an id, the first
      record carrying it is replaced in place, and when there is none the
      collection is written back unchanged. Without an id the new record is
      put in front. */
  function BuilderSave(f: Form, editing: Option<int>, template: string, now: int,
                       savedAt: string, s: seq<Resume>): (o: SaveOutcome)
    ensures o.MissingNameOrEmail? <==> !Filled(f.name) || !Filled(f.email)
    ensures o.Saved? && editing.None? ==>
      |o.resumes| == |s| + 1 && o.resumes[1..] == s
      && o.resumes[0] == BuildRecord(f, now, template, savedAt)
    ensures o.Saved? && editing.Some? && !HasId(s, editing.value) ==> o.resumes == s
    ensures o.Saved? && editing.Some? && HasId(s, editing.value) ==>
      var i := FindIndex(s, editing.value).value;
      |o.resumes| == |s|
      && o.resumes[i] == BuildRecord(f, editing.value, template, savedAt)
      && forall j :: 0 <= j < |s| && j != i ==> o.resumes[j] == s[j]
  {
    TrimEmptyIff(f.name);
    TrimEmptyIff(f.email);
    if Trim(f.name) == [] || Trim(f.email) == [] then
      MissingNameOrEmail
    else
      match editing
      case None => Saved([BuildRecord(f, now, template, savedAt)] + s)
      case Some(id) =>
        match FindIndex(s, id)
        case None => Saved(s)
        case Some(i) => Saved(s[i := BuildRecord(f, id, template, savedAt)])
  }

  /** A new record saved from the builder is what a later lookup by its id
      returns, since it is the first in the collection. */
  lemma SaveNewThenFind(f: Form, template: string, now: int, savedAt: string, s: seq<Resume>)
    requires Filled(f.name) && Filled(f.email)
    ensures BuilderSave(f, None, template, now, savedAt, s).Saved?
    ensures Find(BuilderSave(f, None, template, now, savedAt, s).resumes, now)
         == Some(BuildRecord(f, now, template, savedAt))
  {
  }

  /** Saving over an existing id: a lookup by that id returns the new
      version. */
  lemma SaveExistingThenFind(f: Form, id: int, template: string, now: int, savedAt: string,
                             s: seq<Resume>)
    requires Filled(f.name) && Filled(f.email) && HasId(s, id)
    ensures BuilderSave(f, Some(id), template, now, savedAt, s).Saved?
    ensures Find(BuilderSave(f, Some(id), template, now, savedAt, s).resumes, id)
         == Some(BuildRecord(f, id, template, savedAt))
  {
    var i := FindIndex(s, id).value;
    var t := BuilderSave(f, Some(id), template, now, savedAt, s).resumes;
    assert forall j :: 0 <= j < i ==> t[j].id != id;
    FindFirstAt(t, id, i);
  }

  lemma FindFirstAt(t: seq<Resume>, id: int, i: nat)
    requires i < |t| && t[i].id == id
    requires forall j :: 0 <= j < i ==> t[j].id != id
    ensures FindIndex(t, id) == Some(i)
  {
    var k := FindIndex(t, id);
    assert k.Some?;
  }

  /** Loading a stored record into the builder and saving it straight away
      writes the same record back in its place; only the template (taken
      from the page address) and the save time can change. Records that
      lack a name or an e-mail (the preview page saves those) are refused. */
  lemma LoadThenSave(s: seq<Resume>, i: int, template: string, now: int, savedAt: string)
    requires WellFormed(s) && 0 <= i < |s|
    ensures var o := BuilderSave(LoadForm(s[i]), Some(s[i].id), template, now, savedAt, s);
      if s[i].name != [] && s[i].email != [] then
        o == Saved(s[i := s[i].(template := template, savedAt := savedAt)])
      else
        o == MissingNameOrEmail
  {
    var r := s[i];
    FindUnique(s, i);
    assert FieldsTrimmed(r);
    TrimTrimmed(r.name);
    TrimTrimmed(r.email);
    TrimEmptyIff(r.name);
    TrimEmptyIff(r.email);
    if r.name != [] && r.email != [] {
      RebuildTrimmed(r, template, savedAt);
    }
  }

  /** Building a record from an already trimmed record's fields gives the
      record back. */
  lemma RebuildTrimmed(r: Resume, template: string, savedAt: string)
    requires FieldsTrimmed(r)
    ensures BuildRecord(LoadForm(r), r.id, template, savedAt)
         == r.(template := template, savedAt := savedAt)
  {
    TrimTrimmed(r.name);
    TrimTrimmed(r.email);
    TrimTrimmed(r.phone);
    TrimTrimmed(r.summary);
    TrimTrimmed(r.experience);
    TrimTrimmed(r.collegeName);
    TrimTrimmed(r.degree);
    TrimTrimmed(r.graduationYear);
    TrimTrimmed(r.percentage);
    TrimTrimmed(r.skills);
    TrimTrimmed(r.projects);
    TrimTrimmed(r.certificates);
  }

  /** A saved resume, loaded back into the builder, shows the same preview
      as the form it was saved from. */
  lemma ReloadRendersSame(f: Form, id: int, template: string, savedAt: string, d: Defaults)
    ensures Render(LoadForm(BuildRecord(f, id, template, savedAt)), d) == Render(f, d)
  {
    RenderTrimmed(f, d);
  }

  /** The builder's save keeps the collection well formed, provided a new
      record's clock reading is not already an id. */
  lemma BuilderSavePreserves(f: Form, editing: Option<int>, template: string, now: int,
                             savedAt: string, s: seq<Resume>)
    requires WellFormed(s)
    requires editing.None? ==> !HasId(s, now)
    ensures var o := BuilderSave(f, editing, template, now, savedAt, s);
      o.Saved? ==> WellFormed(o.resumes)
  {
    var o := BuilderSave(f, editing, template, now, savedAt, s);
    if o.Saved? {
      if editing.None? {
        PrependPreserves(BuildRecord(f, now, template, savedAt), s);
      } else if HasId(s, editing.value) {
        var i := FindIndex(s, editing.value).value;
        ReplacePreserves(s, i, BuildRecord(f, editing.value, template, savedAt));
      }
    }
  }

  lemma ReplacePreserves(s: seq<Resume>, i: nat, r: Resume)
    requires WellFormed(s) && i < |s| && FieldsTrimmed(r) && r.id == s[i].id
    ensures WellFormed(s[i := r])
  {
  }

  lemma PrependPreserves(r: Resume, s: seq<Resume>)
    requires WellFormed(s) && FieldsTrimmed(r) && !HasId(s, r.id)
    ensures WellFormed([r] + s)
  {
    var t := [r] + s;
    forall i, j | 0 <= i < j < |t|
      ensures t[i].id != t[j].id
    {
      if i == 0 {
        assert t[j] == s[j - 1];
      } else {
        assert t[i] == s[i - 1] && t[j] == s[j - 1];
      }
    }
  }

  // ---------------------------------------------------------------------
  // Builder to preview page, and the preview page's save
  // ---------------------------------------------------------------------

  /** The twelve text fields of a hand-over, as a form. */
  function HandoffForm(h: Handoff): Form {
    Form(h.name, h.email, h.phone, h.summary, h.experience, h.collegeName,
         h.degree, h.graduationYear, h.percentage, h.skills, h.projects,
         h.certificates)
  }

  /** The preview button: the trimmed fields, the template and the current
      preview markup. */
  function MakeHandoff(f: Form, template: string, html: string): (h: Handoff)
    ensures h.htmlPreview == html && h.template == template
    ensures HandoffForm(h) == TrimForm(f) && FormTrimmed(HandoffForm(h))
  {
    Handoff(Trim(f.name), Trim(f.email), Trim(f.phone), Trim(f.summary),
            Trim(f.experience), Trim(f.collegeName), Trim(f.degree),
            Trim(f.graduationYear), Trim(f.percentage), Trim(f.skills),
            Trim(f.projects), Trim(f.certificates), template, html)
  }

  /** A stored text value that may be missing, with its fallback. */
  function OrElse(value: string, fallback: string): (r: string)
    ensures value != [] ==> r == value
    ensures value == [] ==> r == fallback
  {
    if value != [] then value else fallback
  }

  /** The preview page's save: a new record always goes in front, named
      "My Resume" when the name is empty and with template "1" when none
      was passed on. */
  function PreviewSave(h: Handoff, now: int, savedAt: string, s: seq<Resume>): (t: seq<Resume>)
    ensures |t| == |s| + 1 && t[1..] == s
    ensures t[0].id == now && t[0].savedAt == savedAt
    ensures t[0].name == (if h.name == [] then "My Resume" else h.name)
    ensures t[0].template == (if h.template == [] then "1" else h.template)
    ensures LoadForm(t[0]) == HandoffForm(h).(name := t[0].name)
  {
    var r := Resume(now, OrElse(h.name, "My Resume"), h.email, h.phone, h.summary,
                    h.experience, h.collegeName, h.degree, h.graduationYear,
                    h.percentage, h.skills, h.projects, h.certificates,
                    OrElse(h.template, "1"), savedAt);
    [r] + s
  }

  /** Both save paths build the same record from the same form: saving via
      the preview page stores what the builder would store for a new
      resume, except that a blank name becomes "My Resume". */
  lemma PreviewSaveMatchesBuilder(f: Form, template: string, html: string, now: int,
                                  savedAt: string, s: seq<Resume>)
    requires template != []
    ensures var r := PreviewSave(MakeHandoff(f, template, html), now, savedAt, s)[0];
      r == BuildRecord(f, now, template, savedAt).(name := OrElse(Trim(f.name), "My Resume"))
  {
  }

  /** The preview page's save keeps the collection well formed when the
      data came from the builder and the clock reading is a fresh id. */
  lemma PreviewSavePreserves(f: Form, template: string, html: string, now: int,
                             savedAt: string, s: seq<Resume>)
    requires WellFormed(s) && !HasId(s, now)
    ensures WellFormed(PreviewSave(MakeHandoff(f, template, html), now, savedAt, s))
  {
    var t := PreviewSave(MakeHandoff(f, template, html), now, savedAt, s);
    var r := t[0];
    assert IsTrimmed("My Resume");
    assert FieldsTrimmed(r);
    assert t == [r] + s;
    PrependPreserves(r, s);
  }

  // ---------------------------------------------------------------------
  // Delete
  // ---------------------------------------------------------------------

  /** `filter((r) => r.id !== id)`: every record with the id goes, the
      others stay in their order. */
  function Delete(s: seq<Resume>, id: int): (t: seq<Resume>)
    ensures !HasId(t, id)
    ensures forall i :: 0 <= i < |s| && s[i].id != id ==> s[i] in t
    ensures IsSubsequence(t, s)
  {
    if s == [] then []
    else
      var rest := Delete(s[1..], id);
      assert forall i :: 1 <= i < |s| ==> s[i] == s[1..][i - 1];
      if s[0].id != id then [s[0]] + rest
      else
        assert rest != [] ==> rest[0].id != id;
        rest
  }

  /** Every record without the id is kept as often as it occurs, and none
      with it: deletion drops nothing else, duplicates included. */
  lemma {:induction false} DeleteCounts(s: seq<Resume>, id: int, x: Resume)
    ensures multiset(Delete(s, id))[x] == if x.id == id then 0 else multiset(s)[x]
    decreases |s|
  {
    if s != [] {
      var rest := Delete(s[1..], id);
      DeleteCounts(s[1..], id, x);
      assert s == [s[0]] + s[1..];
      if s[0].id != id {
        assert Delete(s, id) == [s[0]] + rest;
      } else {
        assert Delete(s, id) == rest;
      }
    }
  }

  /** Deleting from a concatenation deletes from each part: the survivors
      keep their relative order. */
  lemma {:induction false} DeleteAppend(a: seq<Resume>, b: seq<Resume>, id: int)
    ensures Delete(a + b, id) == Delete(a, id) + Delete(b, id)
    decreases |a|
  {
    if a == [] {
      assert a + b == b;
    } else {
      assert (a + b)[1..] == a[1..] + b;
      DeleteAppend(a[1..], b, id);
    }
  }

  /** Deleting an id no record carries changes nothing. */
  lemma {:induction false} DeleteAbsent(s: seq<Resume>, id: int)
    requires !HasId(s, id)
    ensures Delete(s, id) == s
    decreases |s|
  {
    if s != [] {
      assert !HasId(s[1..], id) by {
        assert forall i :: 0 <= i < |s[1..]| ==> s[1..][i] == s[i + 1];
      }
      DeleteAbsent(s[1..], id);
    }
  }

  /** After a delete, looking the id up finds nothing. */
  lemma DeleteThenFind(s: seq<Resume>, id: int)
    ensures Find(Delete(s, id), id) == None
  {
  }

  /** In a collection with unique ids a delete removes at most one record. */
  lemma {:induction false} DeleteUniqueLength(s: seq<Resume>, id: int)
    requires UniqueIds(s)
    ensures |Delete(s, id)| == if HasId(s, id) then |s| - 1 else |s|
    decreases |s|
  {
    if s == [] {
    } else {
      var tail := s[1..];
      assert UniqueIds(tail) by {
        assert forall i :: 0 <= i < |tail| ==> tail[i] == s[i + 1];
      }
      DeleteUniqueLength(tail, id);
      if s[0].id == id {
        assert !HasId(tail, id) by {
          assert forall i :: 0 <= i < |tail| ==> tail[i] == s[i + 1];
        }
      } else {
        assert HasId(s, id) <==> HasId(tail, id) by {
          assert forall i :: 0 <= i < |tail| ==> tail[i] == s[i + 1];
          if HasId(s, id) {
            var k :| 0 <= k < |s| && s[k].id == id;
            assert k > 0 && tail[k - 1].id == id;
          }
        }
      }
    }
  }

  /** Deleting keeps the collection well formed. */
  lemma DeletePreserves(s: seq<Resume>, id: int)
    requires WellFormed(s)
    ensures WellFormed(Delete(s, id))
  {
    SubsequenceWellFormed(Delete(s, id), s);
  }

  lemma {:induction false} SubsequenceWellFormed(t: seq<Resume>, s: seq<Resume>)
    requires WellFormed(s) && IsSubsequence(t, s)
    ensures WellFormed(t)
    decreases |s|
  {
    if t != [] {
      var tail := s[1..];
      assert WellFormed(tail) by {
        assert forall i :: 0 <= i < |tail| ==> tail[i] == s[i + 1];
      }
      if t[0] == s[0] {
        SubsequenceWellFormed(t[1..], tail);
        SubsequenceElements(t[1..], tail);
        assert !HasId(tail, s[0].id) by {
          assert forall i :: 0 <= i < |tail| ==> tail[i] == s[i + 1];
        }
        forall j | 0 < j < |t|
          ensures t[0].id != t[j].id
        {
          assert t[j] == t[1..][j - 1];
          assert t[j] in tail;
        }
        assert t == [t[0]] + t[1..];
      } else {
        SubsequenceWellFormed(t, tail);
      }
    }
  }
}
