/** `RenderHero`: a page's hero block names its component in its `type` field; the
    component is looked up in the `heroes` table and rendered with all of the block's
    props. A missing block, an empty or absent type and the type "none" render nothing.
    The lookup is a property read on a plain JavaScript object, so besides the table's
    own key it also finds the names every object inherits from `Object.prototype`; any
    other type renders nothing. */
module RenderHero {
  import opened Wrappers

  /** What a lookup in the `heroes` table can yield: its one component, or a value the
      table inherits from `Object.prototype` under the given name. */
  datatype HeroComponent = PostHero | Inherited(name: string)

  /** The hero block: its `type` select and its other fields, by name. */
  datatype HeroProps = HeroProps(heroType: Option<string>, fields: map<string, string>)

  /** The table's own keys. */
  const Heroes: map<string, HeroComponent> := map["postHero" := PostHero]

  /** The properties of `Object.prototype` (section 20.1.3 of ECMAScript, and the
      legacy accessors of its Annex B.2.2). Each holds a function or, for `__proto__`,
      an object, so a read of any of them is truthy. */
  const ObjectPrototypeNames: set<string> := {
    "constructor", "hasOwnProperty", "isPrototypeOf", "propertyIsEnumerable",
    "toLocaleString", "toString", "valueOf", "__proto__",
    "__defineGetter__", "__defineSetter__", "__lookupGetter__", "__lookupSetter__"
  }

  /** `heroes[type]`, `None` being `undefined`: an own key first, then an inherited
      name. */
  function Lookup(t: string): (r: Option<HeroComponent>)
    ensures r.Some? <==> t in Heroes || t in ObjectPrototypeNames
    ensures t in Heroes ==> r == Some(Heroes[t])
    ensures r.Some? && r.value.Inherited? ==> r.value.name == t && t !in Heroes
  {
    if t in Heroes then Some(Heroes[t])
    else if t in ObjectPrototypeNames then Some(Inherited(t))
    else None
  }

  /** The element returned: a component and the props it receives. */
  datatype Rendered = Rendered(component: HeroComponent, props: HeroProps)

  /** `!type` for a string-valued field: absent or empty. */
  predicate Falsy(t: Option<string>) {
    t.None? || t.value == ""
  }

  /** `RenderHero(props)`, `None` being `null`. */
  function Render(props: Option<HeroProps>): (r: Option<Rendered>)
    ensures r.Some? <==>
      props.Some? && props.value.heroType.Some? && props.value.heroType.value != "none"
      && (props.value.heroType.value in Heroes || props.value.heroType.value in ObjectPrototypeNames)
    ensures r.Some? ==> r.value.props == props.value
    ensures r.Some? && props.value.heroType.value in Heroes ==>
      r.value.component == Heroes[props.value.heroType.value]
    ensures r.Some? && props.value.heroType.value !in Heroes ==>
      r.value.component == Inherited(props.value.heroType.value)
  {
    var t := if props.None? then None else props.value.heroType;
    if Falsy(t) || t.value == "none" then None
    else
      match Lookup(t.value)
      case None => None
      case Some(c) => Some(Rendered(c, props.value))
  }

  /** The values the hero's `type` select offers: "none", "postHero" and
      "heroheader1". */
  const TypeOptions: seq<string> := ["none", "postHero", "heroheader1"]

  /** Of the selectable types only "postHero" renders anything: "none" is refused
      before the lookup and "heroheader1" has no entry in the table and is no inherited
      name, so a page set to it shows no hero. */
  lemma SelectableTypes(fields: map<string, string>)
    ensures forall i :: 0 <= i < |TypeOptions| ==> TypeOptions[i] !in ObjectPrototypeNames
    ensures forall i :: 0 <= i < |TypeOptions| ==>
      (Render(Some(HeroProps(Some(TypeOptions[i]), fields))).Some? <==> TypeOptions[i] == "postHero")
    ensures Render(Some(HeroProps(Some("postHero"), fields)))
      == Some(Rendered(PostHero, HeroProps(Some("postHero"), fields)))
  {
  }

  /** Every type the table knows is rendered with its own component, an inherited name
      yields the inherited value, and any other type, the empty string, an absent type
      or an absent block render nothing. */
  lemma TableIsTheOnlySource(t: string, fields: map<string, string>)
    ensures t in Heroes ==> Render(Some(HeroProps(Some(t), fields))) == Some(Rendered(Heroes[t], HeroProps(Some(t), fields)))
    ensures t !in Heroes && t in ObjectPrototypeNames ==>
      Render(Some(HeroProps(Some(t), fields))) == Some(Rendered(Inherited(t), HeroProps(Some(t), fields)))
    ensures t !in Heroes && t !in ObjectPrototypeNames ==> Render(Some(HeroProps(Some(t), fields))).None?
    ensures Render(Some(HeroProps(None, fields))).None?
    ensures Render(None).None?
  {
  }
}
