/**
  The field-to-preview binder of the builder page. Each input handler reads
  one or more form fields, trims them, and writes an HTML fragment into its
  preview element and a display state into that element's section. Here a
  handler is a pure function from the raw field text to a `Preview` value.

  The `data-default` attribute of each preview element (the placeholder) is
  a parameter; an element without the attribute behaves as an empty one.
  No HTML escaping happens anywhere: field text is pasted into markup as is.
 */
module Binder {
  import opened Common
  import opened Text

  /** What a handler leaves behind: the fragment written into the preview
      element and whether its section is displayed. */
  datatype Preview = Preview(html: string, visible: bool)

  /** The raw values of the builder's input fields. */
  datatype Form = Form(
    name: string, email: string, phone: string, summary: string,
    experience: string, collegeName: string, degree: string,
    graduationYear: string, percentage: string, skills: string,
    projects: string, certificates: string)

  /** The placeholders of the preview elements that have one. */
  datatype Defaults = Defaults(
    name: string, summary: string, experience: string, education: string,
    skills: string, projects: string, certificates: string)

  /** The whole live preview after every handler has run. The contact line
      has no section of its own, so it is plain text. */
  datatype Rendered = Rendered(
    name: Preview, contact: string, summary: Preview, experience: Preview,
    education: Preview, skills: Preview, projects: Preview,
    certificates: Preview)

  /** A field counts as filled when something other than white space is in it. */
  predicate Filled(raw: string) {
    !AllWhitespace(raw)
  }

  // ---------------------------------------------------------------------
  // Plain fields (name, summary)
  // ---------------------------------------------------------------------

  /** `bindInput`: the trimmed value, or the placeholder when it is empty;
      the section is shown exactly when the field is filled. */
  function BindPlain(raw: string, default: string): (p: Preview)
    ensures p.visible <==> Filled(raw)
    ensures p.visible ==> IsTrimmed(p.html) && p.html != [] && |p.html| <= |raw|
    ensures !p.visible ==> p.html == default
  {
    TrimEmptyIff(raw);
    var value := Trim(raw);
    Preview(if value != [] then value else default, value != [])
  }

  /** Rendering a plain field from its already trimmed value (as happens
      when a stored resume is loaded back into the form) gives the same
      preview as rendering the value the user typed. */
  lemma BindPlainTrimmed(raw: string, default: string)
    ensures BindPlain(Trim(raw), default) == BindPlain(raw, default)
  {
    TrimIdempotent(raw);
  }

  /** A filled plain field shows the typed text minus the white space
      around it and nothing else. */
  lemma BindPlainShowsCore(a: string, m: string, b: string, default: string)
    requires AllWhitespace(a) && AllWhitespace(b) && IsTrimmed(m) && m != []
    ensures BindPlain(a + m + b, default) == Preview(m, true)
  {
    TrimCharacterization(a, m, b);
    TrimEmptyIff(a + m + b);
  }

  // ---------------------------------------------------------------------
  // Contact line
  // ---------------------------------------------------------------------

  const Bullet: string := " \U{2022} "

  /** `updateContact`: the trimmed e-mail (or the word "email" when it is
      empty), followed by a bullet and the trimmed phone when there is one. */
  function Contact(rawEmail: string, rawPhone: string): (c: string)
    ensures !Filled(rawPhone) ==> c == (if Filled(rawEmail) then Trim(rawEmail) else "email")
    ensures Filled(rawPhone) ==>
      c == (if Filled(rawEmail) then Trim(rawEmail) else "email") + Bullet + Trim(rawPhone)
  {
    TrimEmptyIff(rawEmail);
    TrimEmptyIff(rawPhone);
    var email := if Trim(rawEmail) != [] then Trim(rawEmail) else "email";
    var phone := Trim(rawPhone);
    if phone != [] then email + Bullet + phone else email
  }

  /** The e-mail alone when there is no phone, both joined by a bullet when
      there is one. */
  lemma ContactOfTrimmed(email: string, phone: string)
    requires IsTrimmed(email) && email != []
    requires IsTrimmed(phone) && phone != []
    ensures Contact(email, "") == email
    ensures Contact(email, phone) == email + Bullet + phone
  {
    TrimTrimmed(email);
    TrimTrimmed(phone);
    TrimTrimmed("");
    TrimEmptyIff(email);
    TrimEmptyIff(phone);
  }

  /** A blank e-mail shows the word "email"; the phone is trimmed. */
  lemma ContactBlankEmail(blank: string, phone: string)
    requires AllWhitespace(blank)
    requires IsTrimmed(phone) && phone != []
    ensures Contact(blank, " " + phone + " ") == "email" + Bullet + phone
  {
    TrimEmptyIff(blank);
    assert AllWhitespace(" ");
    TrimCharacterization(" ", phone, " ");
    TrimEmptyIff(" " + phone + " ");
  }

  // ---------------------------------------------------------------------
  // Multi-line list fields (experience, projects, certificates)
  // ---------------------------------------------------------------------

  const EntryOpen: string := "<div class=\"r-entry-content\">"
  const DivClose: string := "</div>"

  /** `.filter((line) => line.trim())`: the lines with some non-blank
      character, in their original order. */
  function NonBlankLines(lines: seq<string>): (r: seq<string>)
    ensures forall i :: 0 <= i < |r| ==> Filled(r[i])
    ensures forall i :: 0 <= i < |lines| && Filled(lines[i]) ==> lines[i] in r
    ensures IsSubsequence(r, lines)
  {
    if lines == [] then []
    else
      var rest := NonBlankLines(lines[1..]);
      assert forall i :: 1 <= i < |lines| ==> lines[i] == lines[1..][i - 1];
      if Filled(lines[0]) then [lines[0]] + rest
      else
        assert rest != [] ==> Filled(rest[0]);
        rest
  }

  /** Every non-blank line is kept as often as it occurs, and no blank one
      is: the filter drops nothing else, duplicates included. */
  lemma {:induction false} NonBlankLinesCounts(lines: seq<string>, x: string)
    ensures multiset(NonBlankLines(lines))[x] == if Filled(x) then multiset(lines)[x] else 0
    decreases |lines|
  {
    if lines != [] {
      NonBlankLinesCounts(lines[1..], x);
      assert lines == [lines[0]] + lines[1..];
    }
  }

  /** Filtering distributes over concatenation: this is what "the kept lines
      keep their original order" means. */
  lemma {:induction false} NonBlankLinesAppend(a: seq<string>, b: seq<string>)
    ensures NonBlankLines(a + b) == NonBlankLines(a) + NonBlankLines(b)
    decreases |a|
  {
    if a == [] {
      assert a + b == b;
    } else {
      assert (a + b)[1..] == a[1..] + b;
      NonBlankLinesAppend(a[1..], b);
    }
  }

  /** Filtering twice is filtering once. */
  lemma {:induction false} NonBlankLinesIdempotent(lines: seq<string>)
    ensures NonBlankLines(NonBlankLines(lines)) == NonBlankLines(lines)
    decreases |lines|
  {
    if lines != [] {
      NonBlankLinesIdempotent(lines[1..]);
      var rest := NonBlankLines(lines[1..]);
      if Filled(lines[0]) {
        assert ([lines[0]] + rest)[1..] == rest;
      }
    }
  }

  /** The entries of a list field: the lines of the trimmed value, split on
      line feeds, that are not blank. The lines themselves are not trimmed. */
  function ListEntries(raw: string): (entries: seq<string>)
    ensures forall i :: 0 <= i < |entries| ==> Filled(entries[i]) && '\n' !in entries[i]
  {
    var lines := Split(Trim(raw), '\n');
    var r := NonBlankLines(lines);
    SubsequenceElements(r, lines);
    assert forall i :: 0 <= i < |r| ==> r[i] in lines;
    r
  }

  /** For any way of writing the trimmed value as newline-separated lines,
      the entries are exactly the non-blank lines, kept as written: a line
      is never trimmed. */
  lemma ListEntriesOfLines(raw: string, lines: seq<string>)
    requires lines != []
    requires forall i :: 0 <= i < |lines| ==> '\n' !in lines[i]
    requires Trim(raw) == Join(lines, ['\n'])
    ensures ListEntries(raw) == NonBlankLines(lines)
  {
    SplitJoin(lines, '\n');
  }

  /** A filled field always yields at least one entry: the first character
      of the trimmed value is not a line feed, so the first line is filled. */
  lemma FilledListHasEntry(raw: string)
    requires Filled(raw)
    ensures ListEntries(raw) != []
  {
    TrimEmptyIff(raw);
    var value := Trim(raw);
    var lines := Split(value, '\n');
    var first := lines[0];
    assert value[0] != '\n';
    SplitFirstLine(value, '\n');
    assert first != [] && first[0] == value[0];
    assert !IsWhitespace(first[0]);
    assert Filled(first);
    assert first in ListEntries(raw);
  }

  /** The first piece of a split starts with the first character of the
      input when that character is not the separator. */
  lemma SplitFirstLine(s: string, sep: char)
    requires s != [] && s[0] != sep
    ensures Split(s, sep)[0] != [] && Split(s, sep)[0][0] == s[0]
  {
  }

  function EntryDiv(line: string): string {
    EntryOpen + line + DivClose
  }

  function WrapEntries(entries: seq<string>): (divs: seq<string>)
    ensures |divs| == |entries|
    ensures forall i :: 0 <= i < |entries| ==> divs[i] == EntryDiv(entries[i])
  {
    seq(|entries|, i requires 0 <= i < |entries| => EntryDiv(entries[i]))
  }

  /** The experience, projects and certificates handlers: one entry block
      per non-blank line when the field is filled, the placeholder and a
      hidden section otherwise. */
  function BindList(raw: string, default: string): (p: Preview)
    ensures p.visible <==> Filled(raw)
    ensures p.visible ==> ListEntries(raw) != []
    ensures p.visible ==> p.html == Concat(WrapEntries(ListEntries(raw)))
    ensures !p.visible ==> p.html == default
  {
    TrimEmptyIff(raw);
    if Trim(raw) != [] then
      FilledListHasEntry(raw);
      Preview(Concat(WrapEntries(ListEntries(raw))), true)
    else
      Preview(default, false)
  }

  lemma BindListTrimmed(raw: string, default: string)
    ensures BindList(Trim(raw), default) == BindList(raw, default)
  {
    TrimIdempotent(raw);
    TrimEmptyIff(raw);
    TrimEmptyIff(Trim(raw));
  }

  /** A blank line between two entries is dropped: `x`, an empty line and
      `y` give exactly the entries `x` and `y`. */
  lemma ListSkipsBlankLine(x: string, y: string)
    requires IsTrimmed(x) && x != [] && '\n' !in x
    requires IsTrimmed(y) && y != [] && '\n' !in y
    ensures ListEntries(x + "\n\n" + y) == [x, y]
  {
    var s := x + "\n\n" + y;
    var lines := [x, "", y];
    assert s[0] == x[0] && s[|s| - 1] == y[|y| - 1];
    TrimTrimmed(s);
    Join3(x, "", y, ['\n']);
    assert Join(lines, ['\n']) == s;
    SplitJoin(lines, '\n');
    TrimEmptyIff(x);
    TrimEmptyIff(y);
    BlankLineDropped(x, y);
  }

  lemma BlankLineDropped(x: string, y: string)
    requires Filled(x) && Filled(y)
    ensures NonBlankLines([x, "", y]) == [x, y]
  {
    var lines := [x, "", y];
    assert !Filled("");
    assert lines[1..] == ["", y] && lines[2..] == [y] && lines[3..] == [];
    assert NonBlankLines([y]) == [y];
    assert NonBlankLines(["", y]) == [y];
  }

  /** Projects and certificates register `bindInput` and then the list
      handler on the same field. Both run on every input event, in that
      order, and the list handler's later `innerHTML` assignment wins, so
      the plain handler leaves no trace in the element. The plain handler's
      section is the output id plus "Section" (`rProjectsSection`), a
      different element from the list handler's `#projectsSection`; both
      handlers test the same trimmed value, so that section, where it
      exists, is shown or hidden exactly like the list handler's. */
  function BindStacked(raw: string, default: string): (p: Preview)
    ensures p == BindList(raw, default)
    ensures p.visible == BindPlain(raw, default).visible
  {
    var last := BindList(raw, default);
    Preview(last.html, last.visible)
  }

  // ---------------------------------------------------------------------
  // Skills
  // ---------------------------------------------------------------------

  const BadgeOpen: string := "<span class=\"skill-badge\">"
  const SpanClose: string := "</span>"

  function TrimEach(parts: seq<string>): (r: seq<string>)
    ensures |r| == |parts|
    ensures forall i :: 0 <= i < |parts| ==> r[i] == Trim(parts[i])
  {
    seq(|parts|, i requires 0 <= i < |parts| => Trim(parts[i]))
  }

  /** The text of each badge: the comma-separated segments of the trimmed
      value, each trimmed. Empty segments are kept. */
  function Badges(raw: string): (b: seq<string>)
    ensures |b| == Count(Trim(raw), ',') + 1
    ensures forall i :: 0 <= i < |b| ==> IsTrimmed(b[i])
    ensures forall i :: 0 <= i < |b| ==> ',' !in b[i]
  {
    var segs := Split(Trim(raw), ',');
    TrimEachKeepsAbsent(segs, ',');
    var r := TrimEach(segs);
    assert |r| == Count(Trim(raw), ',') + 1;
    assert forall i :: 0 <= i < |r| ==> IsTrimmed(r[i]);
    r
  }

  lemma TrimEachKeepsAbsent(parts: seq<string>, c: char)
    requires forall i :: 0 <= i < |parts| ==> c !in parts[i]
    ensures forall i :: 0 <= i < |parts| ==> c !in TrimEach(parts)[i]
  {
    forall i | 0 <= i < |parts|
      ensures c !in TrimEach(parts)[i]
    {
      TrimKeepsAbsent(parts[i], c);
    }
  }

  /** Badge i holds the i-th comma segment, trimmed: for any way of writing
      the (trimmed) field as comma-free segments joined by commas, the
      badges are exactly those segments trimmed. */
  lemma BadgesOfSegments(raw: string, segs: seq<string>)
    requires segs != []
    requires forall i :: 0 <= i < |segs| ==> ',' !in segs[i]
    requires Trim(raw) == Join(segs, [','])
    ensures Badges(raw) == TrimEach(segs)
  {
    SplitJoin(segs, ',');
  }

  function BadgeSpan(text: string): string {
    BadgeOpen + text + SpanClose
  }

  function WrapBadges(texts: seq<string>): (spans: seq<string>)
    ensures |spans| == |texts|
    ensures forall i :: 0 <= i < |texts| ==> spans[i] == BadgeSpan(texts[i])
  {
    seq(|texts|, i requires 0 <= i < |texts| => BadgeSpan(texts[i]))
  }

  /** The skills handler: one badge per comma segment when the field is
      filled (so the badge count is the comma count plus one), the
      placeholder and a hidden section otherwise. */
  function BindSkills(raw: string, default: string): (p: Preview)
    ensures p.visible <==> Filled(raw)
    ensures p.visible ==> p.html == Concat(WrapBadges(Badges(raw)))
    ensures !p.visible ==> p.html == default
  {
    TrimEmptyIff(raw);
    if Trim(raw) != [] then Preview(Concat(WrapBadges(Badges(raw))), true)
    else Preview(default, false)
  }

  lemma BindSkillsTrimmed(raw: string, default: string)
    ensures BindSkills(Trim(raw), default) == BindSkills(raw, default)
  {
    TrimIdempotent(raw);
    TrimEmptyIff(raw);
    TrimEmptyIff(Trim(raw));
  }

  /** Stray spaces around the commas do not reach the badges:
      `x, y , z` gives the badges `x`, `y` and `z`. */
  lemma SkillsTrimSegments(x: string, y: string, z: string)
    requires x != [] && y != [] && z != []
    requires IsTrimmed(x) && IsTrimmed(y) && IsTrimmed(z)
    requires ',' !in x && ',' !in y && ',' !in z
    ensures Badges(x + ", " + y + " , " + z) == [x, y, z]
  {
    var t := x + ", " + y + " , " + z;
    var segs := [x, " " + y + " ", " " + z];
    SpacedSkillsTrimmed(x, y, z);
    TrimTrimmed(t);
    Join3(segs[0], segs[1], segs[2], [',']);
    assert Join(segs, [',']) == t;
    BadgesOfSegments(t, segs);
    TrimTrimmed(x);
    SpacedSegmentsTrimmed(x, y, z);
  }

  lemma SpacedSkillsTrimmed(x: string, y: string, z: string)
    requires x != [] && z != [] && IsTrimmed(x) && IsTrimmed(z)
    ensures IsTrimmed(x + ", " + y + " , " + z)
  {
    var t := x + ", " + y + " , " + z;
    assert t[0] == x[0] && t[|t| - 1] == z[|z| - 1];
  }

  lemma SpacedSegmentsTrimmed(x: string, y: string, z: string)
    requires IsTrimmed(y) && IsTrimmed(z) && y != [] && z != []
    ensures TrimEach([x, " " + y + " ", " " + z]) == [Trim(x), y, z]
  {
    assert AllWhitespace(" ");
    assert AllWhitespace("");
    TrimCharacterization(" ", y, " ");
    assert " " + z == " " + z + "";
    TrimCharacterization(" ", z, "");
  }

  /** An empty segment between two commas is kept as an empty badge. */
  lemma SkillsKeepEmptySegment(a: string, b: string)
    requires a != [] && b != [] && IsTrimmed(a) && IsTrimmed(b)
    requires ',' !in a && ',' !in b
    ensures Badges(a + ",," + b) == [a, "", b]
  {
    var segs := [a, "", b];
    var t := a + ",," + b;
    assert t[0] == a[0] && t[|t| - 1] == b[|b| - 1];
    TrimTrimmed(t);
    Join3(a, "", b, [',']);
    assert Join(segs, [',']) == t;
    BadgesOfSegments(t, segs);
    TrimTrimmed(a);
    TrimTrimmed(b);
    TrimTrimmed("");
  }

  // ---------------------------------------------------------------------
  // Education
  // ---------------------------------------------------------------------

  const TitleOpen: string := "<div class=\"r-entry-title\">"
  const SubtitleOpen: string := "<div class=\"r-entry-subtitle\">"

  /** The detail parts: graduation year, then grade, each only if present. */
  function EducationDetails(year: string, percentage: string): (d: seq<string>)
    ensures |d| == (if year != [] then 1 else 0) + (if percentage != [] then 1 else 0)
    ensures year != [] ==> d[0] == "Graduated: " + year
    ensures percentage != [] ==> d[|d| - 1] == "GPA: " + percentage
  {
    (if year != [] then ["Graduated: " + year] else [])
      + (if percentage != [] then ["GPA: " + percentage] else [])
  }

  /** The fragments of the education block, from trimmed sub-fields, in the
      order degree line, college line, detail line. */
  function EducationFragments(college: string, degree: string, year: string, percentage: string): (f: seq<string>)
    ensures |f| == (if degree != [] then 1 else 0) + (if college != [] then 1 else 0)
                   + (if year != [] || percentage != [] then 1 else 0)
    ensures degree != [] ==> f[0] == TitleOpen + degree + DivClose
    ensures college != [] ==> f[if degree != [] then 1 else 0] == SubtitleOpen + college + DivClose
    ensures year != [] || percentage != [] ==>
      f[|f| - 1] == EntryOpen + Join(EducationDetails(year, percentage), Bullet) + DivClose
  {
    var details := EducationDetails(year, percentage);
    (if degree != [] then [TitleOpen + degree + DivClose] else [])
      + (if college != [] then [SubtitleOpen + college + DivClose] else [])
      + (if details != [] then [EntryOpen + Join(details, Bullet) + DivClose] else [])
  }

  /** `updateEducation`: the section is shown exactly when one of the four
      sub-fields is filled, and then holds at least one fragment. */
  function BindEducation(college: string, degree: string, year: string, percentage: string,
                         default: string): (p: Preview)
    ensures p.visible <==> Filled(college) || Filled(degree) || Filled(year) || Filled(percentage)
    ensures p.visible ==> p.html != []
    ensures p.visible ==>
      p.html == Concat(EducationFragments(Trim(college), Trim(degree), Trim(year), Trim(percentage)))
    ensures !p.visible ==> p.html == default
  {
    TrimEmptyIff(college);
    TrimEmptyIff(degree);
    TrimEmptyIff(year);
    TrimEmptyIff(percentage);
    var c, d, y, g := Trim(college), Trim(degree), Trim(year), Trim(percentage);
    if c != [] || d != [] || y != [] || g != [] then
      var f := EducationFragments(c, d, y, g);
      assert f[0] != [];
      ConcatNonEmpty(f);
      Preview(Concat(f), true)
    else
      Preview(default, false)
  }

  lemma ConcatNonEmpty(f: seq<string>)
    requires f != [] && f[0] != []
    ensures Concat(f) != []
  {
  }

  lemma BindEducationTrimmed(college: string, degree: string, year: string, percentage: string,
                             default: string)
    ensures BindEducation(Trim(college), Trim(degree), Trim(year), Trim(percentage), default)
         == BindEducation(college, degree, year, percentage, default)
  {
    TrimIdempotent(college);
    TrimIdempotent(degree);
    TrimIdempotent(year);
    TrimIdempotent(percentage);
    TrimEmptyIff(college);
    TrimEmptyIff(degree);
    TrimEmptyIff(year);
    TrimEmptyIff(percentage);
    TrimEmptyIff(Trim(college));
    TrimEmptyIff(Trim(degree));
    TrimEmptyIff(Trim(year));
    TrimEmptyIff(Trim(percentage));
  }

  /** Only a degree: a single title line and no detail line. */
  lemma EducationDegreeOnly(degree: string, default: string)
    requires Filled(degree)
    ensures BindEducation("", degree, "", "", default) == Preview(TitleOpen + Trim(degree) + DivClose, true)
  {
    TrimTrimmed("");
    TrimEmptyIff(degree);
    assert EducationDetails("", "") == [];
  }

  // ---------------------------------------------------------------------
  // The whole preview
  // ---------------------------------------------------------------------

  /** Every handler applied to the current form (the builder fires all of
      them after loading a stored resume). */
  function Render(f: Form, d: Defaults): (r: Rendered)
    ensures r.name.visible <==> Filled(f.name)
    ensures r.experience.visible <==> Filled(f.experience)
    ensures r.projects == BindList(f.projects, d.projects)
    ensures r.certificates == BindList(f.certificates, d.certificates)
  {
    Rendered(
      BindPlain(f.name, d.name),
      Contact(f.email, f.phone),
      BindPlain(f.summary, d.summary),
      BindList(f.experience, d.experience),
      BindEducation(f.collegeName, f.degree, f.graduationYear, f.percentage, d.education),
      BindSkills(f.skills, d.skills),
      BindStacked(f.projects, d.projects),
      BindStacked(f.certificates, d.certificates))
  }

  /** Every field of the form is already trimmed, as after a load. */
  predicate FormTrimmed(f: Form) {
    && IsTrimmed(f.name) && IsTrimmed(f.email) && IsTrimmed(f.phone)
    && IsTrimmed(f.summary) && IsTrimmed(f.experience) && IsTrimmed(f.collegeName)
    && IsTrimmed(f.degree) && IsTrimmed(f.graduationYear) && IsTrimmed(f.percentage)
    && IsTrimmed(f.skills) && IsTrimmed(f.projects) && IsTrimmed(f.certificates)
  }

  /** The form with every field trimmed: what a save stores. The result is
      trimmed throughout, and a form that already is comes back unchanged. */
  function TrimForm(f: Form): (t: Form)
    ensures FormTrimmed(t)
    ensures FormTrimmed(f) ==> t == f
  {
    TrimmedFormFixed(f);
    Form(Trim(f.name), Trim(f.email), Trim(f.phone), Trim(f.summary),
         Trim(f.experience), Trim(f.collegeName), Trim(f.degree),
         Trim(f.graduationYear), Trim(f.percentage), Trim(f.skills),
         Trim(f.projects), Trim(f.certificates))
  }

  lemma TrimmedFormFixed(f: Form)
    ensures FormTrimmed(f) ==>
      && Trim(f.name) == f.name && Trim(f.email) == f.email && Trim(f.phone) == f.phone
      && Trim(f.summary) == f.summary && Trim(f.experience) == f.experience
      && Trim(f.collegeName) == f.collegeName && Trim(f.degree) == f.degree
      && Trim(f.graduationYear) == f.graduationYear && Trim(f.percentage) == f.percentage
      && Trim(f.skills) == f.skills && Trim(f.projects) == f.projects
      && Trim(f.certificates) == f.certificates
  {
    if FormTrimmed(f) {
      TrimTrimmed(f.name); TrimTrimmed(f.email); TrimTrimmed(f.phone);
      TrimTrimmed(f.summary); TrimTrimmed(f.experience); TrimTrimmed(f.collegeName);
      TrimTrimmed(f.degree); TrimTrimmed(f.graduationYear); TrimTrimmed(f.percentage);
      TrimTrimmed(f.skills); TrimTrimmed(f.projects); TrimTrimmed(f.certificates);
    }
  }

  /** The preview depends on the fields only through their trimmed values,
      so rendering what was saved reproduces what was shown when saving. */
  lemma RenderTrimmed(f: Form, d: Defaults)
    ensures Render(TrimForm(f), d) == Render(f, d)
  {
    var t := TrimForm(f);
    BindPlainTrimmed(f.name, d.name);
    BindPlainTrimmed(f.summary, d.summary);
    ContactTrimmed(f.email, f.phone);
    BindListTrimmed(f.experience, d.experience);
    BindEducationTrimmed(f.collegeName, f.degree, f.graduationYear, f.percentage, d.education);
    BindSkillsTrimmed(f.skills, d.skills);
    BindListTrimmed(f.projects, d.projects);
    BindListTrimmed(f.certificates, d.certificates);
  }

  lemma ContactTrimmed(rawEmail: string, rawPhone: string)
    ensures Contact(Trim(rawEmail), Trim(rawPhone)) == Contact(rawEmail, rawPhone)
  {
    TrimIdempotent(rawEmail);
    TrimIdempotent(rawPhone);
  }
}
