/** `setupPageTheme`: the page's name is taken from the URL path, an accent
    colour is chosen for it by an ordered chain of substring tests (falling
    back to the current `--secondary-color`), and the hero icon is chosen by a
    second, shorter chain. `GetTheme` is the choice as a pure function;
    `Document.SetupPageTheme` is the step that writes it into the page. */
module PageTheme {
  import opened Options
  import opened JsString

  const DefaultPage := "index.html"
  const GreyColor := "#6c757d"
  const HealthColor := "#2ecc71"
  const AddictionColor := "#e74c3c"
  const SexualHealthColor := "#9b59b6"
  const FinanceColor := "#f39c12"
  const MentalHealthIcon := "bi bi-emoji-smile"
  const AddictionIcon := "bi bi-shield-exclamation"

  /** `pathname.split('/').pop() || 'index.html'`: the last path segment, or
      the default document when the path is empty or ends in a slash. */
  function PageName(pathname: string): (r: string)
    ensures r != [] && '/' !in r
    ensures pathname == [] || pathname[|pathname| - 1] == '/' ==> r == DefaultPage
    ensures pathname != [] && pathname[|pathname| - 1] != '/' ==>
      |r| <= |pathname| && pathname[|pathname| - |r|..] == r &&
      (|r| == |pathname| || pathname[|pathname| - |r| - 1] == '/')
  {
    SplitLastIsTail(pathname, '/');
    var segment := Last(Split(pathname, '/'));
    if segment == [] then DefaultPage else segment
  }

  /** The page name of a path that ends in a file name is that file name,
      whatever directories come before it. */
  lemma PageNameOfFile(dir: string, name: string)
    requires name != [] && '/' !in name
    ensures PageName(dir + "/" + name) == name
  {
    var p := dir + "/" + name;
    var r := PageName(p);
    assert |p| == |dir| + 1 + |name|;
    assert p[|p| - 1] == name[|name| - 1];
    assert p[|p| - |r|..] == r && (|r| == |p| || p[|p| - |r| - 1] == '/');
    assert p[|p| - |name| - 1] == '/';
    assert forall k :: |p| - |r| <= k < |p| ==> p[k] == r[k - (|p| - |r|)];
    assert forall k :: |p| - |name| <= k < |p| ==> p[k] == name[k - (|p| - |name|)];
    assert p[|p| - |name|..] == name;
  }

  /** One entry of a first-match table: the substring to look for and what a
      page whose name contains it gets. */
  datatype Rule<T> = Rule(key: string, value: T)

  /** The value of the first rule, in table order, whose key the page name
      contains. */
  function FirstMatch<T>(rules: seq<Rule<T>>, page: string): (r: Option<T>)
    ensures r.None? <==> forall i :: 0 <= i < |rules| ==> !Contains(page, rules[i].key)
    ensures r.Some? ==>
      exists i :: 0 <= i < |rules| && Contains(page, rules[i].key) && r.value == rules[i].value &&
        forall j :: 0 <= j < i ==> !Contains(page, rules[j].key)
  {
    if rules == [] then None
    else if Contains(page, rules[0].key) then Some(rules[0].value)
    else
      var r := FirstMatch(rules[1..], page);
      assert forall i :: 1 <= i < |rules| ==> rules[i] == rules[1..][i - 1];
      r
  }

  /** The colour table, in the order the `if`/`else if` chain tests it. */
  const ColorRules: seq<Rule<string>> := [
    Rule("salud", HealthColor),
    Rule("adicciones", AddictionColor),
    Rule("sexual", SexualHealthColor),
    Rule("financiera", FinanceColor)
  ]

  /** The icon table, in the order its chain tests it. */
  const IconRules: seq<Rule<string>> := [
    Rule("salud-mental", MentalHealthIcon),
    Rule("adicciones", AddictionIcon)
  ]

  /** The colour before the chain: the value read from `--secondary-color`,
      trimmed, or grey when the read gave the empty string. A value made of
      whitespace alone is non-empty, so it is trimmed to the empty string and
      the grey default is not used. */
  function BaseColor(css: string): (r: string)
    ensures css == [] ==> r == GreyColor
    ensures r == [] <==> css != [] && AllWhitespace(css)
    ensures r != [] ==> !IsWhitespace(r[0]) && !IsWhitespace(r[|r| - 1])
    ensures css != [] ==> r == Trim(css)
  {
    if css != [] then
      TrimEmptyIff(css);
      TrimEnds(css);
      Trim(css)
    else GreyColor
  }

  /** The colour table read first-match, one rule at a time. */
  lemma ColorRulesInOrder(page: string)
    ensures FirstMatch(ColorRules, page) ==
      if Contains(page, "salud") then Some(HealthColor)
      else if Contains(page, "adicciones") then Some(AddictionColor)
      else if Contains(page, "sexual") then Some(SexualHealthColor)
      else if Contains(page, "financiera") then Some(FinanceColor)
      else None
  {
    var r1 := ColorRules[1..];
    var r2 := r1[1..];
    var r3 := r2[1..];
    assert r1 == [Rule("adicciones", AddictionColor), Rule("sexual", SexualHealthColor), Rule("financiera", FinanceColor)];
    assert r2 == [Rule("sexual", SexualHealthColor), Rule("financiera", FinanceColor)];
    assert r3 == [Rule("financiera", FinanceColor)];
    assert r3[1..] == [];
    var m3 := if Contains(page, "financiera") then Some(FinanceColor) else None;
    assert FirstMatch(r3, page) == m3;
    var m2 := if Contains(page, "sexual") then Some(SexualHealthColor) else m3;
    assert FirstMatch(r2, page) == m2;
    var m1 := if Contains(page, "adicciones") then Some(AddictionColor) else m2;
    assert FirstMatch(r1, page) == m1;
  }

  /** The accent colour chain, as the source writes it; it is the colour
      table read first-match, falling back to the base colour. */
  function AccentColor(page: string, css: string): (r: string)
    ensures r == FirstMatch(ColorRules, page).GetOr(BaseColor(css))
  {
    ColorRulesInOrder(page);
    if Contains(page, "salud") then HealthColor
    else if Contains(page, "adicciones") then AddictionColor
    else if Contains(page, "sexual") then SexualHealthColor
    else if Contains(page, "financiera") then FinanceColor
    else BaseColor(css)
  }

  /** The hero icon chain: the new class of `.hero-icon i`, or None when the
      icon is left as it is. It is the icon table read first-match. */
  function HeroIcon(page: string): (r: Option<string>)
    ensures r == FirstMatch(IconRules, page)
  {
    if Contains(page, "salud-mental") then Some(MentalHealthIcon)
    else if Contains(page, "adicciones") then Some(AddictionIcon)
    else None
  }

  datatype ThemeConfig = ThemeConfig(color: string, heroIcon: Option<string>)

  /** The theme of the page at `pathname`, given the value `--secondary-color`
      has before the page sets it. */
  function GetTheme(pathname: string, css: string): (r: ThemeConfig)
    ensures r.color == FirstMatch(ColorRules, PageName(pathname)).GetOr(BaseColor(css))
    ensures r.heroIcon == FirstMatch(IconRules, PageName(pathname))
  {
    var page := PageName(pathname);
    ThemeConfig(AccentColor(page, css), HeroIcon(page))
  }

  /** A page whose name contains "salud" is green whatever else it contains
      ("salud-sexual", "adicciones-y-salud"). */
  lemma HealthTakesPrecedence(page: string, css: string)
    requires Contains(page, "salud")
    ensures AccentColor(page, css) == HealthColor
  {
  }

  /** With none of the four words in the name, the colour is the base colour:
      grey when nothing was read, the empty string when only whitespace was. */
  lemma UncategorisedColor(page: string, css: string)
    requires forall i :: 0 <= i < |ColorRules| ==> !Contains(page, ColorRules[i].key)
    ensures AccentColor(page, css) == BaseColor(css)
    ensures css == [] ==> AccentColor(page, css) == GreyColor
    ensures css != [] && AllWhitespace(css) ==> AccentColor(page, css) == []
  {
    assert ColorRules[0].key == "salud";
  }

  /** The two chains are independent, yet a page that gets the mental-health
      icon always gets the health colour, since "salud-mental" contains
      "salud"; a page with the addiction icon is red or, when its name also
      says "salud", green. */
  lemma IconAgreesWithColor(pathname: string, css: string)
    ensures GetTheme(pathname, css).heroIcon == Some(MentalHealthIcon) ==>
      GetTheme(pathname, css).color == HealthColor
    ensures GetTheme(pathname, css).heroIcon == Some(AddictionIcon) ==>
      GetTheme(pathname, css).color in {HealthColor, AddictionColor}
  {
    MentalHealthIsHealth(PageName(pathname));
  }

  /** Every mental-health page name is also a health page name. */
  lemma MentalHealthIsHealth(page: string)
    ensures Contains(page, "salud-mental") ==> Contains(page, "salud")
  {
    if Contains(page, "salud-mental") {
      assert StartsWith("salud-mental", "salud");
      ContainsTrans(page, "salud-mental", "salud");
    }
  }

  /** A path ending in a slash, or the empty path, is themed as the default
      document "index.html", which contains none of the words: its colour is
      the base colour and its icon is left alone. */
  lemma RootPathTheme(pathname: string, css: string)
    requires pathname == [] || pathname[|pathname| - 1] == '/'
    ensures GetTheme(pathname, css) == ThemeConfig(BaseColor(css), None)
  {
    assert 's' !in DefaultPage && 'a' !in DefaultPage && 'f' !in DefaultPage;
    MissingFirstChar(DefaultPage, "salud");
    MissingFirstChar(DefaultPage, "adicciones");
    MissingFirstChar(DefaultPage, "sexual");
    MissingFirstChar(DefaultPage, "financiera");
    MissingFirstChar(DefaultPage, "salud-mental");
  }

  /** A health page that is not the mental-health page: green, and the hero
      icon is left as it is. */
  lemma PhysicalHealthPage(name: string, css: string)
    requires name == "salud-fisica.html"
    ensures AccentColor(name, css) == HealthColor && HeroIcon(name) == None
  {
    assert StartsWith(name, "salud");
    PhysicalHealthNotMental(name);
    PhysicalHealthNotAddiction(name);
  }

  /** "salud-fisica.html" has no 'n' where "salud-mental" would need one. */
  lemma PhysicalHealthNotMental(name: string)
    requires name == "salud-fisica.html"
    ensures !Contains(name, "salud-mental")
  {
    MissingLetter(name, "salud-mental", 8);
  }

  /** "salud-fisica.html" has no 'n' where "adicciones" would need one. */
  lemma PhysicalHealthNotAddiction(name: string)
    requires name == "salud-fisica.html"
    ensures !Contains(name, "adicciones")
  {
    MissingLetter(name, "adicciones", 7);
  }

  /** The same page reached through any directory path. */
  lemma PhysicalHealthPageTheme(dir: string, name: string, css: string)
    requires name == "salud-fisica.html"
    ensures GetTheme(dir + "/" + name, css) == ThemeConfig(HealthColor, None)
  {
    PageNameOfFile(dir, name);
    PhysicalHealthPage(name, css);
  }

  /** The addiction page about vaping: red, with the shield icon. */
  lemma VapingPage(name: string, css: string)
    requires name == "adicciones-vapeo.html"
    ensures AccentColor(name, css) == AddictionColor && HeroIcon(name) == Some(AddictionIcon)
  {
    assert StartsWith(name, "adicciones");
    MissingLetter(name, "salud", 2);
    MentalHealthIsHealth(name);
  }

  /** The same page reached through any directory path. */
  lemma VapingPageTheme(dir: string, name: string, css: string)
    requires name == "adicciones-vapeo.html"
    ensures GetTheme(dir + "/" + name, css) == ThemeConfig(AddictionColor, Some(AddictionIcon))
  {
    PageNameOfFile(dir, name);
    VapingPage(name, css);
  }

  /** `GetTheme` is stable on its own colour: given the colour it returned as
      the value read, it returns that colour again, except when no word
      matched and the value read was whitespace only. Then the colour is "",
      and "" as the value read gives grey. */
  lemma ThemeReapplied(pathname: string, css: string)
    ensures var c := GetTheme(pathname, css).color;
      GetTheme(pathname, c).color == c <==>
      !(FirstMatch(ColorRules, PageName(pathname)).None? && css != [] && AllWhitespace(css))
  {
    var page := PageName(pathname);
    if FirstMatch(ColorRules, page).None? && css != [] {
      var c := BaseColor(css);
      if c != [] {
        TrimIdempotent(css);
      }
    } else if FirstMatch(ColorRules, page).None? {
      assert !IsWhitespace(GreyColor[0]) && !IsWhitespace(GreyColor[|GreyColor| - 1]);
      assert TrimStart(GreyColor) == GreyColor;
      assert TrimEnd(GreyColor) == GreyColor;
    }
  }

  /** The page as the theme step sees it: the value of the CSS custom property
      `--secondary-color` on the root element (what `getComputedStyle` reads
      and `style.setProperty` writes), and the class of the `.hero-icon i`
      element, None when the page has no such element. */
  class Document {
    var secondaryColor: string
    var heroIconClass: Option<string>

    constructor (secondaryColor: string, heroIconClass: Option<string>)
      ensures this.secondaryColor == secondaryColor && this.heroIconClass == heroIconClass
    {
      this.secondaryColor := secondaryColor;
      this.heroIconClass := heroIconClass;
    }

    /** `setupPageTheme`, step by step as the script does it. The colour it
        writes and the icon it sets are those of `GetTheme`; a page without a
        hero icon keeps having none. */
    method SetupPageTheme(pathname: string)
      modifies this
      ensures secondaryColor == GetTheme(pathname, old(secondaryColor)).color
      ensures old(heroIconClass).None? ==> heroIconClass.None?
      ensures old(heroIconClass).Some? ==>
        heroIconClass == Some(GetTheme(pathname, old(secondaryColor)).heroIcon.GetOr(old(heroIconClass).value))
    {
      var currentPage := PageName(pathname);
      var categoryColor := secondaryColor;
      categoryColor := if categoryColor != [] then Trim(categoryColor) else GreyColor;
      if Contains(currentPage, "salud") {
        categoryColor := HealthColor;
      } else if Contains(currentPage, "adicciones") {
        categoryColor := AddictionColor;
      } else if Contains(currentPage, "sexual") {
        categoryColor := SexualHealthColor;
      } else if Contains(currentPage, "financiera") {
        categoryColor := FinanceColor;
      }
      secondaryColor := categoryColor;
      if heroIconClass.Some? {
        if Contains(currentPage, "salud-mental") {
          heroIconClass := Some(MentalHealthIcon);
        } else if Contains(currentPage, "adicciones") {
          heroIconClass := Some(AddictionIcon);
        }
      }
    }
  }
}
