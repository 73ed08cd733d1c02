/** The static template catalogue of the page builder and its search
    (app/components/TemplateGallery.tsx). */
module TemplateGallery {
  import opened Common

  datatype Template = Template(id: string, name: string, category: string, description: string,
                               tags: seq<string>)

  /** The six built-in templates, in display order (thumbnail and preview
      URLs are not modelled). */
  const Catalogue: seq<Template> := [
    Template("landing-1", "Modern Landing Page", "Landing Page",
             "Clean and modern landing page with hero section and features", ["modern", "hero", "features"]),
    Template("landing-2", "E-commerce Landing", "Landing Page",
             "Product-focused landing page with pricing and testimonials", ["ecommerce", "pricing", "testimonials"]),
    Template("blog-1", "Blog Template", "Blog",
             "Clean blog layout with sidebar and featured posts", ["blog", "sidebar", "featured"]),
    Template("portfolio-1", "Portfolio Grid", "Portfolio",
             "Grid-based portfolio with project showcases", ["portfolio", "grid", "projects"]),
    Template("business-1", "Business Website", "Business",
             "Professional business website with services and contact", ["business", "services", "contact"]),
    Template("restaurant-1", "Restaurant Menu", "Restaurant",
             "Elegant restaurant website with menu and reservations", ["restaurant", "menu", "reservations"])
  ]

  const AllCategories := "All"

  const Categories: seq<string> := [AllCategories, "Landing Page", "Blog", "Portfolio", "Business", "Restaurant"]

  /** Some tag contains the (lower-cased) term. */
  predicate TagMatches(tags: seq<string>, term: string) {
    exists k | 0 <= k < |tags| :: Contains(Lower(tags[k]), Lower(term))
  }

  /** The filter: category `All` or equal, and the lower-cased term in the
      name, the description or some tag. */
  predicate Shown(t: Template, category: string, term: string) {
    && (category == AllCategories || t.category == category)
    && (Contains(Lower(t.name), Lower(term)) || Contains(Lower(t.description), Lower(term))
        || TagMatches(t.tags, term))
  }

  /** `filteredTemplates`. */
  function Filtered(category: string, term: string): (r: seq<Template>)
    ensures forall t :: t in r <==> t in Catalogue && Shown(t, category, term)
    ensures Subsequence(r, Catalogue)
  {
    FilterIsSubsequence(Catalogue, (t: Template) => Shown(t, category, term));
    Filter(Catalogue, (t: Template) => Shown(t, category, term))
  }

  /** The initial state lists the whole catalogue, in order. */
  lemma InitialViewShowsAll()
    ensures Filtered(AllCategories, "") == Catalogue
  {
    forall t | t in Catalogue ensures Shown(t, AllCategories, "") {
      assert Lower("") <= Lower(t.name)[0..];
    }
    FilterAll(Catalogue, (t: Template) => Shown(t, AllCategories, ""));
  }

  /** Every template's category has its button, and every button but
      `All` names the category of some template. */
  lemma CategoriesMatchCatalogue()
    ensures forall t | t in Catalogue :: t.category in Categories[1..]
    ensures forall c | c in Categories[1..] :: exists t | t in Catalogue :: t.category == c
  {
    assert Catalogue[0].category == Categories[1];
    assert Catalogue[2].category == Categories[2];
    assert Catalogue[3].category == Categories[3];
    assert Catalogue[4].category == Categories[4];
    assert Catalogue[5].category == Categories[5];
  }

  /** Template ids are distinct. */
  lemma IdsDistinct()
    ensures forall i, j | 0 <= i < j < |Catalogue| :: Catalogue[i].id != Catalogue[j].id
  {
  }
}
