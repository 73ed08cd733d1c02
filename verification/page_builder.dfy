/** The page editor (app/components/PageBuilder.tsx): starter content for a
    chosen template, and saving and publishing pages into the browser's
    `cms_pages` list. */
module PageBuilder {
  import opened Common
  import TemplateGallery

  // ---------------------------------------------------------------------
  // Starter content (`getTemplateContent`)
  // ---------------------------------------------------------------------

  const LandingHtml :=
    "\n" +
    "        <h1>Welcome to Our Platform</h1>\n" +
    "        <p>This is a modern landing page template with a clean design and professional layout.</p>\n" +
    "        <h2>Key Features</h2>\n" +
    "        <ul>\n" +
    "          <li>Responsive design</li>\n" +
    "          <li>Modern UI/UX</li>\n" +
    "          <li>Fast loading</li>\n" +
    "          <li>SEO optimized</li>\n" +
    "        </ul>\n" +
    "        <h2>About Us</h2>\n" +
    "        <p>We are dedicated to providing the best solutions for our customers. Our team of experts works tirelessly to ensure your success.</p>\n" +
    "      "

  /** The blog starter embeds the date of the day it is loaded. */
  const BlogHead :=
    "\n" +
    "        <h1>Blog Post Title</h1>\n" +
    "        <p><em>Published on "
  const BlogTail :=
    "</em></p>\n" +
    "        <p>This is the introduction paragraph of your blog post. It should capture the reader's attention and provide a brief overview of what they can expect to learn.</p>\n" +
    "        <h2>Main Content Section</h2>\n" +
    "        <p>Here you can add your main content with detailed information, examples, and insights that provide value to your readers.</p>\n" +
    "        <blockquote>\n" +
    "          <p>This is a blockquote that highlights important information or quotes from experts in your field.</p>\n" +
    "        </blockquote>\n" +
    "        <h2>Conclusion</h2>\n" +
    "        <p>Wrap up your blog post with a strong conclusion that reinforces your main points and encourages further engagement.</p>\n" +
    "      "

  const PortfolioHtml :=
    "\n" +
    "        <h1>Portfolio Showcase</h1>\n" +
    "        <p>Welcome to my portfolio. Here you can see examples of my work and projects I've completed.</p>\n" +
    "        <h2>Featured Projects</h2>\n" +
    "        <h3>Project 1: Web Application</h3>\n" +
    "        <p>Description of the first project including technologies used and challenges overcome.</p>\n" +
    "        <h3>Project 2: Mobile App</h3>\n" +
    "        <p>Description of the second project with details about the development process and outcomes.</p>\n" +
    "        <h3>Project 3: E-commerce Platform</h3>\n" +
    "        <p>Description of the third project highlighting the business impact and technical achievements.</p>\n" +
    "      "

  const DefaultHtml := "<h1>New Page</h1><p>Start creating your content...</p>"

  /** The ids that have starter content of their own. */
  const StarterIds := {"landing-1", "blog-1", "portfolio-1"}

  /** `getTemplateContent`; `today` is `new Date().toLocaleDateString()`. */
  function TemplateContent(id: string, today: string): (r: string)
    ensures r == DefaultHtml <==> id !in StarterIds
    ensures id == "blog-1" ==> r == BlogHead + today + BlogTail
    ensures r != ""
  {
    if id == "landing-1" then LandingDiffers(); LandingHtml
    else if id == "blog-1" then BlogDiffers(today); BlogHead + today + BlogTail
    else if id == "portfolio-1" then PortfolioDiffers(); PortfolioHtml
    else DefaultEndsInTag(); DefaultHtml
  }

  /** Every starter ends in indentation, the default page in a tag. */
  lemma LandingDiffers()
    ensures LandingHtml != DefaultHtml && LandingHtml != ""
  {
    DefaultEndsInTag();
    assert LandingHtml[|LandingHtml| - 1] == ' ';
  }

  lemma PortfolioDiffers()
    ensures PortfolioHtml != DefaultHtml && PortfolioHtml != ""
  {
    DefaultEndsInTag();
    assert PortfolioHtml[|PortfolioHtml| - 1] == ' ';
  }

  lemma BlogDiffers(today: string)
    ensures BlogHead + today + BlogTail != DefaultHtml && BlogHead + today + BlogTail != ""
  {
    DefaultEndsInTag();
    var b := BlogHead + today + BlogTail;
    assert BlogTail[|BlogTail| - 1] == ' ';
    assert b[|b| - 1] == BlogTail[|BlogTail| - 1];
  }

  lemma DefaultEndsInTag()
    ensures DefaultHtml != "" && DefaultHtml[|DefaultHtml| - 1] == '>'
  {
    assert DefaultHtml[|DefaultHtml| - 1] == '>';
  }

  // ---------------------------------------------------------------------
  // Editor state and the stored page list
  // ---------------------------------------------------------------------

  datatype Status = Draft | Published

  /** A saved page; dates are clock readings. */
  datatype Page = Page(id: string, title: string, content: string, template: string, status: Status,
                       createdAt: nat, updatedAt: nat)

  /** The editor: the page last saved or published, the chosen template's
      id, the editor's HTML and the title field. */
  datatype Editor = Editor(current: Option<Page>, selected: Option<string>, content: string, title: string)

  /** The `cms_pages` entry of local storage: missing (or empty), a JSON
      array of pages, or text that `JSON.parse` rejects (or that is not an
      array), on which both handlers throw. */
  datatype Slot = Absent | Stored(pages: seq<Page>) | Garbled

  /** `JSON.parse(localStorage.getItem('cms_pages') || '[]')` for a slot
      that parses. */
  function Listed(slot: Slot): seq<Page>
    requires !slot.Garbled?
  {
    if slot.Stored? then slot.pages else []
  }

  const CustomTemplate := "custom"

  /** `handleTemplateSelect`: loads the starter content and the template's
      name as the title. */
  function SelectTemplate(e: Editor, t: TemplateGallery.Template, today: string): (r: Editor)
    ensures r.current == e.current && r.selected == Some(t.id)
    ensures r.content == TemplateContent(t.id, today) && r.title == t.name
  {
    e.(selected := Some(t.id), content := TemplateContent(t.id, today), title := t.name)
  }

  /** Three templates of the gallery have no starter content of their own
      and load the default page. */
  lemma GalleryTemplatesWithoutStarter(today: string)
    ensures forall t | t in TemplateGallery.Catalogue ::
              TemplateContent(t.id, today) == DefaultHtml <==>
                t.id in {"landing-2", "business-1", "restaurant-1"}
  {
  }

  // ---------------------------------------------------------------------
  // Save: replace by id, or append
  // ---------------------------------------------------------------------

  predicate SameId(p: Page, q: Page) {
    p.id == q.id
  }

  /** The list update of `handleSave`: the first entry with the page's id
      is replaced, and without one the page is appended. */
  function Upsert(pages: seq<Page>, p: Page): (r: seq<Page>)
    ensures (exists k | 0 <= k < |pages| :: pages[k].id == p.id) ==> |r| == |pages|
    ensures (forall k | 0 <= k < |pages| :: pages[k].id != p.id) ==> |r| == |pages| + 1 && r[|pages|] == p
    ensures p in r
    // Entries with another id keep their place; one entry with the id is
    // replaced, the others are kept.
    ensures forall k | 0 <= k < |pages| :: pages[k].id != p.id ==> r[k] == pages[k]
    ensures forall k | 0 <= k < |pages| :: r[k] == pages[k] || (r[k] == p && pages[k].id == p.id)
    ensures forall k, m | 0 <= k < m < |pages| :: r[k] == pages[k] || r[m] == pages[m]
  {
    match FirstIndex(pages, (q: Page) => SameId(q, p))
    case Some(i) =>
      var r := pages[i := p];
      assert r[i] == p;
      r
    case None => pages + [p]
  }

  /** Ids are pairwise distinct. */
  predicate DistinctIds(pages: seq<Page>) {
    forall i, j | 0 <= i < j < |pages| :: pages[i].id != pages[j].id
  }

  /** Saving keeps the ids of the list distinct. */
  lemma UpsertKeepsIdsDistinct(pages: seq<Page>, p: Page)
    requires DistinctIds(pages)
    ensures DistinctIds(Upsert(pages, p))
  {
    var r := Upsert(pages, p);
    forall i, j | 0 <= i < j < |r| ensures r[i].id != r[j].id {
      if j == |pages| {
        assert r[j] == p;
        assert pages[i].id != p.id;
      } else if r[i] == p {
        assert pages[i].id == p.id && r[j] == pages[j];
      } else if r[j] == p {
        assert pages[j].id == p.id && r[i] == pages[i];
      }
    }
  }

  /** Saving the same page twice stores it once. */
  lemma UpsertIdempotent(pages: seq<Page>, p: Page)
    ensures Upsert(Upsert(pages, p), p) == Upsert(pages, p)
  {
    var r := Upsert(pages, p);
    var j := FirstIndex(r, (q: Page) => SameId(q, p));
    match FirstIndex(pages, (q: Page) => SameId(q, p))
    case Some(i) =>
      assert r[i] == p;
      assert j == Some(i);
    case None =>
      assert r[|pages|] == p;
      assert j == Some(|pages|);
  }

  /** `currentPage?.id || Date.now().toString()`. */
  function PageId(current: Option<Page>, now: nat): (r: string)
    ensures r != ""
  {
    if current.Some? && current.value.id != "" then current.value.id else DecimalString(now)
  }

  /** `handleSave`: the editor and the slot afterwards. A title that is
      only white space is refused with an alert. */
  function Save(e: Editor, slot: Slot, now: nat): (r: (Editor, Slot))
    ensures AllSpace(e.title) ==> r == (e, slot)
    ensures !AllSpace(e.title) ==>
              && r.0.current.Some?
              && var p := r.0.current.value;
              && r.0 == e.(current := Some(p))
              // Always a draft, with the editor's title, content and template.
              && p.status == Draft && p.title == e.title && p.content == e.content
              && p.template == OrElse(e.selected, CustomTemplate) && p.updatedAt == now
              // A page already saved keeps its id and creation date.
              && (e.current.Some? && e.current.value.id != "" ==> p.id == e.current.value.id)
              && (e.current.Some? ==> p.createdAt == e.current.value.createdAt)
              && (e.current.None? ==> p.id == DecimalString(now) && p.createdAt == now)
              // The list gets the page; an unreadable list stays as it was.
              && (slot.Garbled? ==> r.1 == Garbled)
              && (!slot.Garbled? ==> r.1 == Stored(Upsert(Listed(slot), p)))
  {
    TrimEmptyIff(e.title);
    if Trim(e.title) == "" then (e, slot)
    else
      var p := Page(PageId(e.current, now), e.title, e.content, OrElse(e.selected, CustomTemplate), Draft,
                    if e.current.Some? then e.current.value.createdAt else now, now);
      var e' := e.(current := Some(p));
      if slot.Garbled? then (e', Garbled) else (e', Stored(Upsert(Listed(slot), p)))
  }

  /** The list after a save grows by at most one page. */
  lemma SaveGrowsByAtMostOne(e: Editor, slot: Slot, now: nat)
    requires !slot.Garbled?
    ensures var r := Save(e, slot, now).1;
            r == slot || |Listed(r)| <= |Listed(slot)| + 1
  {
  }

  // ---------------------------------------------------------------------
  // Publish
  // ---------------------------------------------------------------------

  /** `handlePublish`: marks the current page published and rewrites its
      entry when the list has one; without a current page it only alerts. */
  function Publish(e: Editor, slot: Slot): (r: (Editor, Slot))
    ensures e.current.None? ==> r == (e, slot)
    ensures e.current.Some? ==> r.0 == e.(current := Some(e.current.value.(status := Published)))
    // The list changes only where an entry has the current page's id.
    ensures e.current.Some? && slot.Stored? ==>
              && r.1.Stored? && |r.1.pages| == |slot.pages|
              && (forall k | 0 <= k < |slot.pages| ::
                    r.1.pages[k] == slot.pages[k]
                    || (slot.pages[k].id == e.current.value.id && r.1.pages[k] == r.0.current.value))
    ensures e.current.Some? && slot.Stored? ==>
              ((exists k | 0 <= k < |slot.pages| :: slot.pages[k].id == e.current.value.id) ==>
                 r.0.current.value in r.1.pages)
    ensures e.current.Some? && slot.Stored? ==>
              ((forall k | 0 <= k < |slot.pages| :: slot.pages[k].id != e.current.value.id) ==> r.1 == slot)
    ensures !slot.Stored? ==> r.1 == slot
  {
    if e.current.None? then (e, slot)
    else
      var updated := e.current.value.(status := Published);
      var e' := e.(current := Some(updated));
      if !slot.Stored? then (e', slot)
      else
        match FirstIndex(slot.pages, (q: Page) => SameId(q, e.current.value))
        case Some(i) => (e', Stored(slot.pages[i := updated]))
        case None => (e', slot)
  }

  /** Publishing right after a save finds the saved entry: the stored copy
      becomes published and the list keeps its length. */
  lemma SaveThenPublish(e: Editor, slot: Slot, now: nat)
    requires !AllSpace(e.title) && !slot.Garbled?
    ensures var (e1, s1) := Save(e, slot, now);
            var (e2, s2) := Publish(e1, s1);
            && e2.current.value.status == Published
            && e2.current.value in s2.pages && |s2.pages| == |s1.pages|
  {
    var (e1, s1) := Save(e, slot, now);
    assert e1.current.value in s1.pages;
  }

  /** Saving a published page turns it back into a draft, in the editor
      and in the list. */
  lemma SaveUnpublishes(e: Editor, slot: Slot, now: nat)
    requires !AllSpace(e.title) && !slot.Garbled?
    requires e.current.Some? && e.current.value.status == Published
    ensures var (e1, s1) := Save(e, slot, now);
            && e1.current.value.status == Draft && e1.current.value in s1.pages
  {
  }

  /** Saving twice with the same editor stores the page once. */
  lemma SaveTwiceStoresOnce(e: Editor, slot: Slot, now: nat, later: nat)
    requires !AllSpace(e.title) && !slot.Garbled?
    ensures var (e1, s1) := Save(e, slot, now);
            var (e2, s2) := Save(e1, s1, later);
            |s2.pages| == |s1.pages|
  {
    var (e1, s1) := Save(e, slot, now);
    assert e1.current.value in s1.pages;
  }
}
