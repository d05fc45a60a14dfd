/**
 * The navigation filters `active_section` and `first_page`, over a finite
 * navigation tree whose items are pages, sections holding further items,
 * and other entries (such as external links) that are neither.
 */
module Navigation {
  import opened Wrappers

  /** A navigation item. */
  datatype Node =
    | Page(url: string)
    | Section(title: string, children: seq<Node>, active: bool)
    | Other(title: string)

  /** The condition `active_section` tests an item for. */
  predicate IsActiveSection(item: Node)
  {
    item.Section? && item.active
  }

  /**
   * `active_section`: the first top-level item that is an active section,
   * or none when there is no such item. Nested sections are not visited.
   */
  function ActiveSection(nav: seq<Node>): (r: Option<Node>)
    ensures r.None? <==> forall i | 0 <= i < |nav| :: !IsActiveSection(nav[i])
    ensures r.Some? ==> exists k | 0 <= k < |nav| :: nav[k] == r.value && IsActiveSection(nav[k])
                          && forall j | 0 <= j < k :: !IsActiveSection(nav[j])
  {
    ActiveSectionFrom(nav, 0)
  }

  /** The loop of `active_section`, from position `i` on. */
  function ActiveSectionFrom(nav: seq<Node>, i: nat): (r: Option<Node>)
    requires i <= |nav|
    ensures r.None? <==> forall k | i <= k < |nav| :: !IsActiveSection(nav[k])
    ensures r.Some? ==> exists k | i <= k < |nav| :: nav[k] == r.value && IsActiveSection(nav[k])
                          && forall j | i <= j < k :: !IsActiveSection(nav[j])
    decreases |nav| - i
  {
    if i == |nav| then None
    else if IsActiveSection(nav[i]) then Some(nav[i])
    else ActiveSectionFrom(nav, i + 1)
  }

  /**
   * `page` is found below `section` by the search `first_page` makes: it is
   * a page among the section's children, or found below one of its child
   * sections.
   */
  ghost predicate Reaches(section: Node, page: Node)
    decreases section
  {
    section.Section? &&
    exists k | 0 <= k < |section.children| ::
      (section.children[k].Page? && section.children[k] == page) || Reaches(section.children[k], page)
  }

  /**
   * The first loop of `first_page`, from position `i` on: the first child
   * that is a page.
   */
  function FirstDirectPage(children: seq<Node>, i: nat): (r: Option<Node>)
    requires i <= |children|
    ensures r.None? <==> forall k | i <= k < |children| :: !children[k].Page?
    ensures r.Some? ==> exists k | i <= k < |children| :: children[k] == r.value && r.value.Page?
                          && forall j | i <= j < k :: !children[j].Page?
    decreases |children| - i
  {
    if i == |children| then None
    else if children[i].Page? then Some(children[i])
    else FirstDirectPage(children, i + 1)
  }

  /**
   * `first_page`: a direct page child if there is one, else the first page
   * that a recursive search of the child sections finds, in order. The page
   * found lies below the section, and nothing is found exactly when no page
   * lies below it.
   */
  function FirstPage(section: Node): (r: Option<Node>)
    requires section.Section?
    ensures r.Some? ==> r.value.Page? && Reaches(section, r.value)
    ensures r.None? ==> forall page :: !Reaches(section, page)
    decreases section, 1
  {
    match FirstDirectPage(section.children, 0)
    case Some(page) => Some(page)
    case None => FirstNestedPage(section, 0)
  }

  /**
   * The second loop of `first_page`, from position `i` on: the first
   * result found by recursing into a child section.
   */
  function FirstNestedPage(section: Node, i: nat): (r: Option<Node>)
    requires section.Section? && i <= |section.children|
    ensures r.Some? ==>
              r.value.Page? && exists k | i <= k < |section.children| :: Reaches(section.children[k], r.value)
    ensures r.None? ==> forall k, page | i <= k < |section.children| :: !Reaches(section.children[k], page)
    decreases section, 0, |section.children| - i
  {
    if i == |section.children| then None
    else
      var item := section.children[i];
      if item.Section? then
        match FirstPage(item)
        case Some(page) => Some(page)
        case None => FirstNestedPage(section, i + 1)
      else FirstNestedPage(section, i + 1)
  }

  /**
   * When a section has a page among its children, `first_page` returns the
   * first such child, even when a child section holding pages comes before it.
   */
  lemma FirstPagePrefersDirectChild(section: Node, k: nat)
    requires section.Section? && k < |section.children| && section.children[k].Page?
    requires forall j | 0 <= j < k :: !section.children[j].Page?
    ensures FirstPage(section) == Some(section.children[k])
  {
  }

  /**
   * When a section has no page among its children, `first_page` returns
   * what it finds in the first child section in which it finds anything.
   */
  lemma FirstPageOfFirstFruitfulSection(section: Node, k: nat)
    requires section.Section? && k < |section.children|
    requires forall j | 0 <= j < |section.children| :: !section.children[j].Page?
    requires section.children[k].Section? && FirstPage(section.children[k]).Some?
    requires forall j | 0 <= j < k :: section.children[j].Section? ==> FirstPage(section.children[j]).None?
    ensures FirstPage(section) == FirstPage(section.children[k])
  {
    NestedSearchSkips(section, 0, k);
  }

  /** The nested search passes over the child sections in which nothing is found. */
  lemma {:induction false} NestedSearchSkips(section: Node, i: nat, k: nat)
    requires section.Section? && i <= k < |section.children|
    requires section.children[k].Section? && FirstPage(section.children[k]).Some?
    requires forall j | i <= j < k :: section.children[j].Section? ==> FirstPage(section.children[j]).None?
    ensures FirstNestedPage(section, i) == FirstPage(section.children[k])
    decreases k - i
  {
    var item := section.children[i];
    if i < k {
      assert item.Section? ==> FirstPage(item).None?;
      assert FirstNestedPage(section, i) == FirstNestedPage(section, i + 1);
      NestedSearchSkips(section, i + 1, k);
    } else {
      assert FirstPage(item).Some?;
    }
  }

  /**
   * A section whose first child is an empty section and whose second child
   * is a section holding a page: `first_page` finds that nested page.
   */
  lemma FirstPageAfterEmptySection(url: string)
    ensures FirstPage(Section("docs", [Section("empty", [], false), Section("guide", [Page(url)], false)], false))
              == Some(Page(url))
  {
    var guide := Section("guide", [Page(url)], false);
    var docs := Section("docs", [Section("empty", [], false), guide], false);
    assert FirstPage(guide) == Some(Page(url)) by {
      FirstPagePrefersDirectChild(guide, 0);
    }
    FirstPageOfFirstFruitfulSection(docs, 1);
  }

  /** An active section nested inside an inactive one is not found. */
  lemma ActiveSectionIgnoresNested(inner: Node)
    requires IsActiveSection(inner)
    ensures ActiveSection([Section("outer", [inner], false)]) == None
  {
  }
}
