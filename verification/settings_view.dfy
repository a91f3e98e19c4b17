/** views/SettingsView.tsx: the friend-link editor and the list fields of the settings form.
    Changes go to a working copy of the configuration; the random id of a new link is a
    parameter. */
module SettingsView {
  import opened Wrappers
  import opened Strings
  import opened Seqs
  import opened Records
  import opened Types
  import FriendLinks

  const DefaultLinkCategory: string := "默认分类"

  /** The new-link form: a `Partial<FriendLink>`, every field possibly missing. */
  datatype LinkForm = LinkForm(
    name: Option<string>, url: Option<string>, avatar: Option<string>,
    description: Option<string>, category: Option<string>)

  const EmptyLinkForm := LinkForm(None, None, None, None, None)

  /** A JavaScript string that is present and not empty. */
  predicate Filled(s: Option<string>) {
    s.Some? && s.value != ""
  }

  function LinkId(l: FriendLink): string { l.id }

  /** `handleAddFriendLink`: with a name and a URL the link is appended, its category
      defaulting to "默认分类", and the form is cleared; otherwise nothing changes.
      Returns the working link list and the form. */
  function AddFriendLink(links: Option<seq<FriendLink>>, form: LinkForm, freshId: string): (r: (Option<seq<FriendLink>>, LinkForm))
    ensures !(Filled(form.name) && Filled(form.url)) ==> r == (links, form)
    ensures Filled(form.name) && Filled(form.url) ==>
      var prior := links.GetOr([]);
      && r.1 == EmptyLinkForm && r.0.Some?
      && |r.0.value| == |prior| + 1 && r.0.value[..|prior|] == prior
      && var l := r.0.value[|prior|];
         && l.id == freshId && l.name == form.name.value && l.url == form.url.value
         && l.avatar == form.avatar && l.description == form.description
         && (Filled(form.category) ==> l.category == form.category)
         && (!Filled(form.category) ==> l.category == Some(DefaultLinkCategory))
  {
    if Filled(form.name) && Filled(form.url) then
      var category := if Filled(form.category) then form.category.value else DefaultLinkCategory;
      var link := FriendLink(freshId, form.name.value, form.url.value, form.avatar, form.description, Some(category));
      (Some(links.GetOr([]) + [link]), EmptyLinkForm)
    else (links, form)
  }

  /** `handleDeleteFriendLink`: `friendLinks?.filter(l => l.id !== id)`. */
  function DeleteFriendLink(links: Option<seq<FriendLink>>, id: string): Option<seq<FriendLink>> {
    if links.None? then None else Some(RemoveId(links.value, id, LinkId))
  }

  /** Deletion drops every copy of each link with the id, keeps every copy of the others,
      and keeps them in order; an absent list stays absent. */
  lemma DeleteFriendLinkSpec(links: Option<seq<FriendLink>>, id: string)
    ensures DeleteFriendLink(links, id).None? <==> links.None?
    ensures links.Some? ==>
      && IsSubseq(DeleteFriendLink(links, id).value, links.value)
      && (forall l :: l in DeleteFriendLink(links, id).value <==> l in links.value && l.id != id)
      && forall l :: multiset(DeleteFriendLink(links, id).value)[l]
           == if l.id != id then multiset(links.value)[l] else 0
  {
    if links.Some? {
      RemoveIdSpec(links.value, id, LinkId);
    }
  }

  /** Deleting a link just added under a fresh id gives back the list it was added to. */
  lemma DeleteAddedLink(links: Option<seq<FriendLink>>, form: LinkForm, freshId: string)
    requires Filled(form.name) && Filled(form.url)
    requires forall j :: 0 <= j < |links.GetOr([])| ==> links.GetOr([])[j].id != freshId
    ensures DeleteFriendLink(AddFriendLink(links, form, freshId).0, freshId) == Some(links.GetOr([]))
  {
    var prior := links.GetOr([]);
    var added := AddFriendLink(links, form, freshId).0.value;
    var x := added[|prior|];
    var keep := OtherId(LinkId, freshId);
    assert added == prior + [x];
    assert forall j :: 0 <= j < |prior| ==> LinkId(prior[j]) != freshId;
    RemoveIdSpec(prior, freshId, LinkId);
    calc {
      RemoveId(added, freshId, LinkId);
      Filter(prior + [x], keep);
      { FilterConcat(prior, [x], keep); }
      Filter(prior, keep) + Filter([x], keep);
      { FilterSingle(x, keep); }
      prior;
    }
  }

  /** A link added without a category is listed on the friends page under "默认分类", not
      under that page's own fallback group "其他资源". */
  lemma AddedLinkGroup(links: Option<seq<FriendLink>>, form: LinkForm, freshId: string)
    requires Filled(form.name) && Filled(form.url)
    ensures var r := AddFriendLink(links, form, freshId).0;
      var l := r.value[|r.value| - 1];
      && FriendLinks.GroupKey(l) == (if Filled(form.category) then form.category.value else DefaultLinkCategory)
      && l in FriendLinks.GroupedLinks(r)[FriendLinks.GroupKey(l)]
  {
    var r := AddFriendLink(links, form, freshId).0;
    FriendLinks.LinkInItsGroup(r.value, |r.value| - 1);
  }

  // ---------------------------------------------------------------------------------------
  // List fields

  /** Skills: one per line, trimmed, blank lines dropped. */
  function ParseSkills(text: string): seq<string> {
    SplitTrimNonEmpty(text, {'\n'})
  }

  /** `skills?.join("\n") || ''`. */
  function SkillsText(skills: Option<seq<string>>): string {
    if skills.None? then "" else Join(skills.value, "\n")
  }

  predicate IsSkill(s: string) {
    s != "" && IsTrimmed(s) && '\n' !in s
  }

  /** Skills shown in the text area and read back come out unchanged. */
  lemma SkillsRoundTrip(skills: seq<string>)
    requires forall k :: 0 <= k < |skills| ==> IsSkill(skills[k])
    ensures ParseSkills(SkillsText(Some(skills))) == skills
  {
    if |skills| == 0 {
      TrimNoop("");
    } else {
      JoinSplit(skills, '\n');
      TrimAllNoop(skills);
      NonEmptyNoop(skills);
    }
  }

  /** Keywords: split on either comma and trimmed, empty entries kept. */
  function ParseKeywords(text: string): seq<string> {
    TrimAll(Split(text, {',', '\U{FF0C}'}))
  }

  /** Keywords shown as `keywords.join(", ")` and read back come out unchanged, empty ones
      included, as long as there is at least one. */
  lemma KeywordsRoundTrip(keywords: seq<string>)
    requires |keywords| >= 1
    requires forall k :: 0 <= k < |keywords| ==> IsTrimmed(keywords[k]) && ',' !in keywords[k] && '\U{FF0C}' !in keywords[k]
    ensures ParseKeywords(Join(keywords, ", ")) == keywords
  {
    JoinAvoids(keywords, ", ", '\U{FF0C}');
    SplitUnusedSep(Join(keywords, ", "), ',', '\U{FF0C}');
    CommaSpaceRoundTrip(keywords);
  }

  /** No keywords show as the empty text, which reads back as one empty keyword: the
      unfiltered split is why `KeywordsRoundTrip` needs at least one. */
  lemma NoKeywordsReadAsOne()
    ensures ParseKeywords(Join([], ", ")) == [""]
  {
    assert Split("", {',', '\U{FF0C}'}) == [""];
    assert Trim("") == "";
  }

  // ---------------------------------------------------------------------------------------
  // Typing into the skills text area

  /** As written, the text area shows `skills.join("\n")` and every change is parsed at
      once: the text after a keystroke at the end is the joined skills plus what was typed,
      and the next rendering shows the joined result. */
  function TypeSkillsAsWritten(skills: seq<string>, typed: string): seq<string> {
    ParseSkills(SkillsText(Some(skills)) + typed)
  }

  /** As written, pressing Enter after the last skill leaves the skills, and so the text
      area, exactly as they were: the new line never appears. */
  lemma EnterAtEndIsLost(skills: seq<string>)
    requires forall k :: 0 <= k < |skills| ==> IsSkill(skills[k])
    ensures TypeSkillsAsWritten(skills, "\n") == skills
    ensures SkillsText(Some(TypeSkillsAsWritten(skills, "\n"))) != SkillsText(Some(skills)) + "\n"
  {
    if |skills| == 0 {
      assert SkillsText(Some(skills)) + "\n" == Join(["", ""], "\n");
      EnterAfterNothing();
    } else {
      EnterAfterSkills(skills);
    }
    assert |SkillsText(Some(skills)) + "\n"| == |SkillsText(Some(skills))| + 1;
  }

  lemma EnterAfterNothing()
    ensures ParseSkills(Join(["", ""], "\n")) == []
  {
    JoinSplit(["", ""], '\n');
    assert TrimAll(["", ""]) == ["", ""] by { TrimNoop(""); }
  }

  lemma EnterAfterSkills(skills: seq<string>)
    requires |skills| >= 1
    requires forall k :: 0 <= k < |skills| ==> IsSkill(skills[k])
    ensures ParseSkills(Join(skills, "\n") + "\n") == skills
  {
    SplitPadded(skills);
    TrimPadded(skills);
  }

  lemma SplitPadded(skills: seq<string>)
    requires |skills| >= 1
    requires forall k :: 0 <= k < |skills| ==> IsSkill(skills[k])
    ensures Split(Join(skills, "\n") + "\n", {'\n'}) == skills + [""]
  {
    var padded := skills + [""];
    assert forall k :: 0 <= k < |padded| ==> '\n' !in padded[k];
    JoinSnoc(skills, "", "\n");
    assert Join(skills, "\n") + "\n" == Join(skills, "\n") + "\n" + "";
    JoinSplit(padded, '\n');
  }

  lemma TrimPadded(skills: seq<string>)
    requires forall k :: 0 <= k < |skills| ==> IsSkill(skills[k])
    ensures NonEmpty(TrimAll(skills + [""])) == skills
  {
    var padded := skills + [""];
    assert forall k :: 0 <= k < |padded| ==> IsTrimmed(padded[k]);
    TrimAllNoop(padded);
    NonEmptyDropsLast(skills);
    NonEmptyNoop(skills);
  }

  /** Dropping empty entries removes a trailing empty one. */
  lemma NonEmptyDropsLast(parts: seq<string>)
    ensures NonEmpty(parts + [""]) == NonEmpty(parts)
  {
    NonEmptyConcat(parts, [""]);
  }

  lemma {:induction false} NonEmptyConcat(a: seq<string>, b: seq<string>)
    ensures NonEmpty(a + b) == NonEmpty(a) + NonEmpty(b)
  {
    if |a| == 0 {
      assert a + b == b;
    } else {
      assert (a + b)[1..] == a[1..] + b;
      NonEmptyConcat(a[1..], b);
    }
  }

  /** The text area as it evidently should work: it keeps the text as typed and the skills
      are read from it. */
  datatype SkillsField = SkillsField(text: string)

  function OpenSkills(skills: Option<seq<string>>): SkillsField {
    SkillsField(SkillsText(skills))
  }

  function TypeInto(f: SkillsField, typed: string): (g: SkillsField)
    ensures g.text == f.text + typed
  {
    SkillsField(f.text + typed)
  }

  function FieldSkills(f: SkillsField): seq<string> {
    ParseSkills(f.text)
  }

  /** Opening the field shows the skills; typing Enter and a new skill after the last one
      adds that skill at the end. */
  lemma TypeNewSkillLine(skills: seq<string>, w: string)
    requires |skills| >= 1
    requires forall k :: 0 <= k < |skills| ==> IsSkill(skills[k])
    requires IsSkill(w)
    ensures FieldSkills(OpenSkills(Some(skills))) == skills
    ensures FieldSkills(TypeInto(TypeInto(OpenSkills(Some(skills)), "\n"), w)) == skills + [w]
  {
    SkillsRoundTrip(skills);
    var all := skills + [w];
    assert forall k :: 0 <= k < |all| ==> IsSkill(all[k]);
    SkillsRoundTrip(all);
    JoinSnoc(skills, w, "\n");
    assert SkillsText(Some(skills)) + "\n" + w == SkillsText(Some(all));
  }
}
