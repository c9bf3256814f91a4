/** The status-icon lookup `getImageSrc`: a two-level table from a safety
    category and its status value to the name of the icon the card shows. The
    category is an enumeration because every call site passes one of the four
    literal category names; the status value is free text from the data. */
module StatusIcons {
  import opened Wrappers

  datatype Category = Mask | Towel | Fountain | LockerRoom

  /** The inner table of one category: status value to icon name. */
  function IconTable(c: Category): map<string, string>
  {
    match c
    case Mask => map["required" := "required-mask", "recommended" := "recommended-mask"]
    case Towel => map["required" := "required-towel", "recommended" := "recommended-towel"]
    case Fountain => map["partial" := "partial-fountain", "not_allowed" := "forbidden-fountain"]
    case LockerRoom =>
      map["allowed" := "required-lockerroom", "partial" := "partial-lockerroom",
          "closed" := "forbidden-lockerroom"]
  }

  /** The status values each category knows. */
  function StatusValues(c: Category): set<string>
  {
    match c
    case Mask => {"required", "recommended"}
    case Towel => {"required", "recommended"}
    case Fountain => {"partial", "not_allowed"}
    case LockerRoom => {"allowed", "partial", "closed"}
  }

  /** One entry of the page's safety-measure legend: an icon name and its caption. */
  datatype LegendItem = LegendItem(src: string, caption: string)

  /** The legend the page shows above the cards, one group per category. */
  function Legend(c: Category): seq<LegendItem>
  {
    match c
    case Mask => [LegendItem("required-mask", "Obrigatório"), LegendItem("recommended-mask", "Recomendado")]
    case Towel => [LegendItem("required-towel", "Obrigatório"), LegendItem("recommended-towel", "Recomendado")]
    case Fountain => [LegendItem("partial-fountain", "Parcial"), LegendItem("forbidden-fountain", "Proibido")]
    case LockerRoom =>
      [LegendItem("required-lockerroom", "Liberado"), LegendItem("partial-lockerroom", "Parcial"),
       LegendItem("forbidden-lockerroom", "Fechado")]
  }

  /** The icon names the legend shows for a category. */
  function LegendSources(c: Category): (srcs: set<string>)
    ensures forall i :: 0 <= i < |Legend(c)| ==> Legend(c)[i].src in srcs
    ensures forall src :: src in srcs ==> exists i :: 0 <= i < |Legend(c)| && Legend(c)[i].src == src
  {
    set i | 0 <= i < |Legend(c)| :: Legend(c)[i].src
  }

  /** `getImageSrc(type, value)`: the icon listed for `value` under the
      category, or the empty string for a value the table does not list. */
  function ImageSrc(c: Category, value: string): (r: string)
    ensures r != "" <==> value in StatusValues(c)
    ensures r == "" || r in LegendSources(c)
  {
    if value in IconTable(c) then
      TableIconsInLegend(c);
      IconTable(c)[value]
    else ""
  }

  /** Every icon the table can answer appears in the legend of its category. */
  lemma TableIconsInLegend(c: Category)
    ensures forall v :: v in IconTable(c) ==> IconTable(c)[v] in LegendSources(c)
  {
    var legend := Legend(c);
    var srcs := LegendSources(c);
    assert legend[0].src in srcs && legend[1].src in srcs;
    if c == LockerRoom { assert legend[2].src in srcs; }
  }

  /** Every icon of the legend is the lookup's answer for some status value. */
  lemma LegendIsCovered(c: Category, src: string)
    requires src in LegendSources(c)
    ensures exists value :: value in StatusValues(c) && ImageSrc(c, value) == src
  {
    var i :| 0 <= i < |Legend(c)| && Legend(c)[i].src == src;
    match c
    case Mask =>
      if i == 0 { assert ImageSrc(c, "required") == src; } else { assert ImageSrc(c, "recommended") == src; }
    case Towel =>
      if i == 0 { assert ImageSrc(c, "required") == src; } else { assert ImageSrc(c, "recommended") == src; }
    case Fountain =>
      if i == 0 { assert ImageSrc(c, "partial") == src; } else { assert ImageSrc(c, "not_allowed") == src; }
    case LockerRoom =>
      if i == 0 { assert ImageSrc(c, "allowed") == src; }
      else if i == 1 { assert ImageSrc(c, "partial") == src; }
      else { assert ImageSrc(c, "closed") == src; }
  }

  /** Which table entry an icon name stands for, if any. */
  function EntryOf(src: string): Option<(Category, string)>
  {
    if src == "required-mask" then Some((Mask, "required"))
    else if src == "recommended-mask" then Some((Mask, "recommended"))
    else if src == "required-towel" then Some((Towel, "required"))
    else if src == "recommended-towel" then Some((Towel, "recommended"))
    else if src == "partial-fountain" then Some((Fountain, "partial"))
    else if src == "forbidden-fountain" then Some((Fountain, "not_allowed"))
    else if src == "required-lockerroom" then Some((LockerRoom, "allowed"))
    else if src == "partial-lockerroom" then Some((LockerRoom, "partial"))
    else if src == "forbidden-lockerroom" then Some((LockerRoom, "closed"))
    else None
  }

  /** The icon found for a listed value leads back to that category and value. */
  lemma IconRoundTrip(c: Category, value: string)
    requires value in StatusValues(c)
    ensures EntryOf(ImageSrc(c, value)) == Some((c, value))
  {
    match c
    case Mask =>
      if value == "required" { assert ImageSrc(c, value) == "required-mask"; }
      else { assert ImageSrc(c, value) == "recommended-mask"; }
    case Towel =>
      if value == "required" { assert ImageSrc(c, value) == "required-towel"; }
      else { assert ImageSrc(c, value) == "recommended-towel"; }
    case Fountain =>
      if value == "partial" { assert ImageSrc(c, value) == "partial-fountain"; }
      else { assert ImageSrc(c, value) == "forbidden-fountain"; }
    case LockerRoom =>
      if value == "allowed" { assert ImageSrc(c, value) == "required-lockerroom"; }
      else if value == "partial" { assert ImageSrc(c, value) == "partial-lockerroom"; }
      else { assert ImageSrc(c, value) == "forbidden-lockerroom"; }
  }

  /** A non-empty icon name determines both the category and the status value:
      no two listed pairs share an icon. */
  lemma IconIdentifiesEntry(c1: Category, v1: string, c2: Category, v2: string)
    requires ImageSrc(c1, v1) != "" && ImageSrc(c1, v1) == ImageSrc(c2, v2)
    ensures c1 == c2 && v1 == v2
  {
    IconRoundTrip(c1, v1);
    IconRoundTrip(c2, v2);
  }

  /** The nine listed entries. */
  lemma ListedEntries()
    ensures ImageSrc(Mask, "required") == "required-mask"
    ensures ImageSrc(Mask, "recommended") == "recommended-mask"
    ensures ImageSrc(Towel, "required") == "required-towel"
    ensures ImageSrc(Towel, "recommended") == "recommended-towel"
    ensures ImageSrc(Fountain, "partial") == "partial-fountain"
    ensures ImageSrc(Fountain, "not_allowed") == "forbidden-fountain"
    ensures ImageSrc(LockerRoom, "allowed") == "required-lockerroom"
    ensures ImageSrc(LockerRoom, "partial") == "partial-lockerroom"
    ensures ImageSrc(LockerRoom, "closed") == "forbidden-lockerroom"
  {
  }

  /** A value listed under another category only is still unknown here:
      the lookup never falls through to a different category's table. */
  lemma NoCrossCategoryLookup()
    ensures ImageSrc(Fountain, "unknown") == ""
    ensures ImageSrc(Fountain, "required") == ""
    ensures ImageSrc(Mask, "partial") == ""
    ensures ImageSrc(LockerRoom, "not_allowed") == ""
    ensures ImageSrc(Towel, "") == ""
  {
  }
}
