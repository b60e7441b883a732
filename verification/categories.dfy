/** The closed set of seasonal categories a movie can be filed under, and the
    background image each one themes the result page with. */
module Categories {
  import opened Wrappers

  datatype Category = Spring | Summer | Autumn | Halloween | Winter | Christmas | ChristmasRomCom

  /** Directory of the background images. */
  const ImagesDir: string := "/static/images/"

  /** Ending of every background image's file name. */
  const BackgroundSuffix: string := "-background.png"

  /** The text a category is stored and submitted as. */
  function Name(c: Category): (n: string)
    ensures |n| > 0
  {
    match c
    case Spring => "Spring"
    case Summer => "Summer"
    case Autumn => "Autumn"
    case Halloween => "Halloween"
    case Winter => "Winter"
    case Christmas => "Christmas"
    case ChristmasRomCom => "Christmas rom-com"
  }

  /** The category a submitted choice names, if it is one of the seven. */
  function Parse(s: string): (r: Option<Category>)
    ensures r.Some? ==> Name(r.value) == s
    ensures r.None? ==> forall c :: Name(c) != s
  {
    if s == "Spring" then Some(Spring)
    else if s == "Summer" then Some(Summer)
    else if s == "Autumn" then Some(Autumn)
    else if s == "Halloween" then Some(Halloween)
    else if s == "Winter" then Some(Winter)
    else if s == "Christmas" then Some(Christmas)
    else if s == "Christmas rom-com" then Some(ChristmasRomCom)
    else None
  }

  /** Parsing a category's name gives the category back. */
  lemma ParseName(c: Category)
    ensures Parse(Name(c)) == Some(c)
  {
  }

  /** Distinct categories have distinct names. */
  lemma NameInjective(a: Category, b: Category)
    requires Name(a) == Name(b)
    ensures a == b
  {
    ParseName(a);
    ParseName(b);
  }

  /** The part of the background file name that identifies the category:
      its name, except that "Christmas rom-com", the one name with a space,
      uses the file /static/images/christmas-rom-com-background.png. */
  function Slug(c: Category): string {
    if c == ChristmasRomCom then "christmas-rom-com" else Name(c)
  }

  /** The background image for a category's result page. Every path lies in
      ImagesDir and ends in BackgroundSuffix; between them stands the
      category's own name, or the hand-made file name for "Christmas rom-com". */
  function BackgroundPath(c: Category): (path: string)
    ensures ImagesDir <= path
    ensures |path| > |ImagesDir| + |BackgroundSuffix|
    ensures path[|path| - |BackgroundSuffix|..] == BackgroundSuffix
    ensures path[|ImagesDir|..|path| - |BackgroundSuffix|] == Slug(c)
    ensures c != ChristmasRomCom ==> path[|ImagesDir|..|path| - |BackgroundSuffix|] == Name(c)
  {
    var path := ImagesDir + Slug(c) + BackgroundSuffix;
    assert path[|ImagesDir|..|path| - |BackgroundSuffix|] == Slug(c);
    assert path[|path| - |BackgroundSuffix|..] == BackgroundSuffix;
    path
  }

  /** Different categories get different backgrounds. */
  lemma BackgroundPathInjective(a: Category, b: Category)
    requires BackgroundPath(a) == BackgroundPath(b)
    ensures a == b
  {
    var pa, pb := BackgroundPath(a), BackgroundPath(b);
    assert Slug(a) == pa[|ImagesDir|..|pa| - |BackgroundSuffix|];
    assert Slug(b) == pb[|ImagesDir|..|pb| - |BackgroundSuffix|];
    if a != ChristmasRomCom && b != ChristmasRomCom {
      NameInjective(a, b);
    }
  }
}
