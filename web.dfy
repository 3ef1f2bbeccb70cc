/** Browser-side values shared by the page scripts: optional values, element
    identities, keyboard keys, page catalogue entries and content sections. */
module Web {

  datatype Option<T> = None | Some(value: T)

  /** A document element, by identity. */
  type Element = nat

  /** The `key` of a keydown event, restricted to the keys the scripts test. */
  datatype Key =
    | Tab | Enter | Space | Escape
    | ArrowUp | ArrowDown | ArrowLeft | ArrowRight | Home | End
    | OtherKey

  /** One entry of `pageData`. The keyword lists are never read by the
      scripts and are not kept; `description` is absent from some entries. */
  datatype PageInfo = PageInfo(title: string, description: Option<string>)

  /** The text an element shows after `textContent = info.description`: an
      absent description converts to null, which empties the element. */
  function ShownDescription(info: PageInfo): (r: string)
    ensures info.description.Some? ==> r == info.description.value
    ensures info.description.None? ==> r == ""
  {
    match info.description
    case Some(d) => d
    case None => ""
  }

  /** A `.content-page` element: its id and whether it carries `active`. */
  datatype Section = Section(id: string, active: bool)

  /** `document.getElementById(id)` over the content sections: the first
      section in document order whose id is `id`. */
  function SectionIndex(sections: seq<Section>, id: string): (r: Option<nat>)
    ensures r.Some? ==> r.value < |sections| && sections[r.value].id == id
    ensures r.Some? ==> forall j :: 0 <= j < r.value ==> sections[j].id != id
    ensures r.None? ==> forall j :: 0 <= j < |sections| ==> sections[j].id != id
  {
    if sections == [] then None
    else if sections[0].id == id then Some(0)
    else
      match SectionIndex(sections[1..], id)
      case None => None
      case Some(k) => Some(k + 1)
  }

  /** Every section after `classList.remove('active')`. */
  function Deactivated(sections: seq<Section>): seq<Section>
  {
    seq(|sections|, i requires 0 <= i < |sections| => sections[i].(active := false))
  }

  /** The sections after the one at `k` is given `active`. */
  function Activated(sections: seq<Section>, k: nat): seq<Section>
  {
    if k < |sections| then sections[k := sections[k].(active := true)] else sections
  }

  /** Switching from all-inactive sections to one: exactly the section at
      `k` is active afterwards, and no id changes. */
  lemma ExactlyOneSectionActive(sections: seq<Section>, k: nat)
    requires k < |sections|
    ensures var r := Activated(Deactivated(sections), k);
      |r| == |sections| &&
      (forall i :: 0 <= i < |r| ==> r[i].id == sections[i].id) &&
      (forall i :: 0 <= i < |r| ==> (r[i].active <==> i == k))
  {
  }
}
