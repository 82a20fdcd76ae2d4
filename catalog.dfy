/**
 * The public service catalog shared by the home page and the services page
 * (src/pages/Index.tsx and src/pages/Services.tsx hold the same code): the
 * `services` row, the icon lookup with its Briefcase fallback, the rule that
 * picks the Arabic title or description, and the catalog query
 * "active rows only, ascending sort_order".
 */
module Catalog {
  import opened Common
  import Ordering

  /** A row of the `services` table (the columns the pages read or write). */
  datatype Service = Service(
    id: string,
    title: string,
    title_ar: Option<string>,
    description: string,
    description_ar: Option<string>,
    icon: string,
    image_url: Option<string>,
    is_active: bool,
    sort_order: int)

  // ---------------------------------------------------------------------------
  // Icons

  /** The icon components the pages can draw for a service. */
  datatype Icon = Plane | Hotel | Moon | GraduationCap | Briefcase | Heart | Package

  /** `iconMap`: eight keys; "Moon" and "MoonIcon" name the same component. */
  const IconMap: map<string, Icon> := map[
    "Plane" := Plane,
    "Hotel" := Hotel,
    "Moon" := Moon,
    "MoonIcon" := Moon,
    "GraduationCap" := GraduationCap,
    "Briefcase" := Briefcase,
    "Heart" := Heart,
    "Package" := Package]

  /**
   * The icon drawn for a service's `icon` name: the mapped component for the
   * eight keys, Briefcase for every other name.
   */
  function GetIcon(name: string): (r: Icon)
    ensures name in IconMap ==> r == IconMap[name]
    ensures name !in IconMap ==> r == Briefcase
  {
    if name in IconMap then IconMap[name] else Briefcase
  }

  /** The map has exactly the eight keys of the source and the two Moon keys agree. */
  lemma IconMapKeys()
    ensures IconMap.Keys == {"Plane", "Hotel", "Moon", "MoonIcon", "GraduationCap", "Briefcase", "Heart", "Package"}
    ensures GetIcon("Moon") == GetIcon("MoonIcon") == Moon
    ensures forall name :: GetIcon(name) == Briefcase <==> name == "Briefcase" || name !in IconMap
  {
  }

  /** Names that a plain object literal inherits from `Object.prototype`. */
  const PrototypeMembers: set<string> := {
    "constructor", "hasOwnProperty", "isPrototypeOf", "propertyIsEnumerable",
    "toLocaleString", "toString", "valueOf", "__proto__",
    "__defineGetter__", "__defineSetter__", "__lookupGetter__", "__lookupSetter__"}

  /** What `iconMap[iconName] || Briefcase` evaluates to on a plain object literal. */
  datatype IconLookup = Component(icon: Icon) | Inherited(member: string)

  /**
   * `iconMap[iconName] || Briefcase` as written: a lookup on an object literal
   * also finds the inherited members, which are truthy, so they are returned
   * instead of the fallback.
   */
  function GetIconAsWritten(name: string): (r: IconLookup)
    ensures r.Inherited? <==> name in PrototypeMembers
  {
    if name in IconMap then Component(IconMap[name])
    else if name in PrototypeMembers then Inherited(name)
    else Component(Briefcase)
  }

  /** An icon name such as "constructor" (the admin form accepts any text) gets no icon. */
  lemma InheritedNameEscapesFallback()
    ensures GetIconAsWritten("constructor") != Component(Briefcase)
    ensures GetIconAsWritten("toString") == Inherited("toString")
  {
  }

  /** The written lookup and the total one agree on every name except the inherited ones. */
  lemma GetIconAgreesOutsidePrototype(name: string)
    ensures GetIconAsWritten(name) == Component(GetIcon(name)) <==> name !in PrototypeMembers
  {
    assert forall k :: k in IconMap ==> k !in PrototypeMembers;
  }

  // ---------------------------------------------------------------------------
  // Localised text

  /** `language === 'ar' && s.title_ar ? s.title_ar : s.title` */
  function LocalizedTitle(s: Service, language: string): (r: string)
    ensures r == s.title || Some(r) == s.title_ar
  {
    if language == "ar" && Truthy(s.title_ar) then s.title_ar.value else s.title
  }

  /** `language === 'ar' && s.description_ar ? s.description_ar : s.description` */
  function LocalizedDescription(s: Service, language: string): (r: string)
    ensures r == s.description || Some(r) == s.description_ar
  {
    if language == "ar" && Truthy(s.description_ar) then s.description_ar.value else s.description
  }

  /**
   * The Arabic text is shown exactly when the language is 'ar' and the Arabic
   * field is present and non-empty; in every other case the default text is shown.
   */
  lemma LocalizedChoice(s: Service, language: string)
    ensures language == "ar" && Truthy(s.title_ar) ==> LocalizedTitle(s, language) == s.title_ar.value
    ensures !(language == "ar" && Truthy(s.title_ar)) ==> LocalizedTitle(s, language) == s.title
    ensures language == "ar" && Truthy(s.description_ar) ==> LocalizedDescription(s, language) == s.description_ar.value
    ensures !(language == "ar" && Truthy(s.description_ar)) ==> LocalizedDescription(s, language) == s.description
    ensures language != "ar" ==> LocalizedTitle(s, language) == s.title && LocalizedDescription(s, language) == s.description
  {
  }

  // ---------------------------------------------------------------------------
  // The catalog query

  /** `.eq('is_active', true)` */
  function ActiveOnly(rows: seq<Service>): (r: seq<Service>)
    ensures forall s :: s in r <==> s in rows && s.is_active
    ensures |r| <= |rows|
  {
    if rows == [] then []
    else (if rows[0].is_active then [rows[0]] else []) + ActiveOnly(rows[1..])
  }

  function SortOrder(s: Service): int
  {
    s.sort_order
  }

  /**
   * `fetchServices`: on success the active rows ordered by ascending `sort_order`;
   * on a failed fetch the list keeps its initial value, the empty list.
   */
  function LoadCatalog(table: seq<Service>, fetch: Outcome): (r: seq<Service>)
  {
    if fetch.Ok? then Ordering.SortBy(ActiveOnly(table), SortOrder) else []
  }

  /**
   * The displayed catalog is exactly the active rows, each once per row, in
   * ascending `sort_order`; an inactive service is never shown.
   */
  lemma CatalogIsActiveInOrder(table: seq<Service>, fetch: Outcome)
    ensures var r := LoadCatalog(table, fetch);
            && (fetch.Error? ==> r == [])
            && (fetch.Ok? ==> multiset(r) == multiset(ActiveOnly(table)))
            && (forall s :: s in r <==> fetch.Ok? && s in table && s.is_active)
            && Ordering.SortedBy(r, SortOrder)
  {
    if fetch.Ok? {
      var active := ActiveOnly(table);
      Ordering.SortBySorted(active, SortOrder);
      forall s ensures s in LoadCatalog(table, fetch) <==> s in active {
        Ordering.SortByMembers(active, SortOrder, s);
      }
    }
  }
}
