// Cross-checking and patching of one sector's metadata document against the
// universe listing (scripts/map_update.py:237-275): the document must carry a
// Name, an X and a Y element; its first name must be the sector's canonical
// name, or the name the canonical one replaced when the collision resolution
// renamed the sector, in which case the new name is inserted in front of it;
// and its position must be the listing's.
module Metadata {
  import opened Wrappers
  import opened Strings

  /**
   * A direct child of the document's root element: its tag, its text and its
   * tail (the text between its end tag and the next sibling). Attributes and
   * grandchildren play no part in the checks and are not modelled.
   */
  datatype Element = Element(tag: string, text: Option<string>, tail: Option<string>)

  datatype MetadataError =
    | NoNameElements       // no Name child at all
    | FirstNameMismatch    // not renamed, and the first Name is not the canonical name
    | MappedNameMismatch   // renamed, and the first Name is not the name it replaced
    | NoXElement
    | XNotAnInteger        // `int()` of the first X element's text raises
    | XMismatch            // the first X element is not the listing's X
    | NoYElement
    | YNotAnInteger
    | YMismatch

  /** The position of the first child with tag `tag`, if any. */
  function FirstIndex(children: seq<Element>, tag: string): (r: Option<int>)
    ensures r.Some? ==> (0 <= r.value < |children| && children[r.value].tag == tag &&
      forall i :: 0 <= i < r.value ==> children[i].tag != tag)
    ensures r.None? ==> forall i :: 0 <= i < |children| ==> children[i].tag != tag
  {
    if |children| == 0 then None
    else if children[0].tag == tag then Some(0)
    else match FirstIndex(children[1..], tag)
      case None => None
      case Some(k) => Some(k + 1)
  }

  /**
   * `findall('./<tag>')`, as positions: every child with tag `tag`, in
   * document order.
   */
  function Matching(children: seq<Element>, tag: string): (found: seq<int>)
    ensures forall t :: 0 <= t < |found| ==> 0 <= found[t] < |children| && children[found[t]].tag == tag
    ensures forall i {:trigger i in found} :: 0 <= i < |children| && children[i].tag == tag ==> i in found
  {
    if |children| == 0 then []
    else
      Matching(children[..|children| - 1], tag)
      + (if children[|children| - 1].tag == tag then [|children| - 1] else [])
  }

  /** The matches come in document order. */
  lemma {:induction false} MatchingIncreasing(children: seq<Element>, tag: string)
    ensures forall a, b :: 0 <= a < b < |Matching(children, tag)| ==> Matching(children, tag)[a] < Matching(children, tag)[b]
  {
    if |children| > 0 {
      var init := children[..|children| - 1];
      MatchingIncreasing(init, tag);
      var found, found' := Matching(init, tag), Matching(children, tag);
      forall a, b | 0 <= a < b < |found'|
        ensures found'[a] < found'[b]
      {
        assert found'[a] == found[a];
        if b < |found| {
          assert found'[b] == found[b];
        }
      }
    }
  }

  /** The first of the matches is the first child with the tag; there is one exactly when some child has it. */
  lemma MatchingFirst(children: seq<Element>, tag: string)
    ensures |Matching(children, tag)| > 0 <==> FirstIndex(children, tag).Some?
    ensures |Matching(children, tag)| > 0 ==> Matching(children, tag)[0] == FirstIndex(children, tag).value
  {
    var found := Matching(children, tag);
    var first := FirstIndex(children, tag);
    MatchingIncreasing(children, tag);
    if first.Some? {
      var k := first.value;
      assert k in found;
      var t :| 0 <= t < |found| && found[t] == k;
      assert found[0] <= found[t];
    }
  }

  /** The loop `findall` runs over the children. */
  method FindAll(children: seq<Element>, tag: string) returns (found: seq<int>)
    ensures found == Matching(children, tag)
  {
    found := [];
    for i := 0 to |children|
      invariant found == Matching(children[..i], tag)
    {
      assert children[..i + 1][..i] == children[..i];
      if children[i].tag == tag {
        found := found + [i];
      }
    }
    assert children[..|children|] == children;
  }

  /** `int(element.text)`: a missing text raises as a malformed one does. */
  function ParseText(text: Option<string>): Option<int>
  {
    if text.None? then None else ParseInt(text.value)
  }

  /** The name the first Name element must hold: the replaced name for a renamed sector. */
  function ExpectedFirstName(canonicalName: string, nameMappings: map<string, string>): string
  {
    if canonicalName in nameMappings then nameMappings[canonicalName] else canonicalName
  }

  /** `list.insert(k, e)` for `0 <= k <= len(list)`. */
  function InsertAt(children: seq<Element>, k: int, e: Element): (r: seq<Element>)
    requires 0 <= k <= |children|
    ensures |r| == |children| + 1 && r[k] == e
    ensures forall i :: 0 <= i < k ==> r[i] == children[i]
    ensures forall i :: k <= i < |children| ==> r[i + 1] == children[i]
  {
    children[..k] + [e] + children[k..]
  }

  /** `findall('./<tag>')[0]`: the first child with tag `tag`, if any. */
  function FirstWith(children: seq<Element>, tag: string): Option<Element>
  {
    match FirstIndex(children, tag)
    case None => None
    case Some(i) => Some(children[i])
  }

  /** The check of the position: X first, then Y, each on its first element. */
  function CheckPosition(children: seq<Element>, x: int, y: int): Result<seq<Element>, MetadataError>
  {
    match PositionError(FirstWith(children, "X"), FirstWith(children, "Y"), x, y)
    case None => Success(children)
    case Some(e) => Failure(e)
  }

  /** The first failing test of the position, given the first X and the first Y element. */
  function PositionError(ex: Option<Element>, ey: Option<Element>, x: int, y: int): Option<MetadataError>
  {
    if ex.None? then Some(NoXElement)
    else
      var px := ParseText(ex.value.text);
      if px.None? then Some(XNotAnInteger)
      else if px.value != x then Some(XMismatch)
      else if ey.None? then Some(NoYElement)
      else
        var py := ParseText(ey.value.text);
        if py.None? then Some(YNotAnInteger)
        else if py.value != y then Some(YMismatch)
        else None
  }

  /**
   * The whole step on the document's children: the name check, the insertion
   * of the new name for a renamed sector (carrying the first Name's tail, so
   * the layout is kept), then the position check on the patched children.
   */
  function Patch(children: seq<Element>, canonicalName: string, x: int, y: int,
                 nameMappings: map<string, string>): Result<seq<Element>, MetadataError>
  {
    match FirstIndex(children, "Name")
    case None => Failure(NoNameElements)
    case Some(k) =>
      if canonicalName !in nameMappings then
        if children[k].text != Some(canonicalName) then Failure(FirstNameMismatch)
        else CheckPosition(children, x, y)
      else if children[k].text != Some(nameMappings[canonicalName]) then Failure(MappedNameMismatch)
      else CheckPosition(InsertAt(children, k, Element("Name", Some(canonicalName), children[k].tail)), x, y)
  }

  method PatchMetadata(metadata: seq<Element>, canonicalName: string, sectorX: int, sectorY: int,
                       nameMappings: map<string, string>) returns (r: Result<seq<Element>, MetadataError>)
    ensures r == Patch(metadata, canonicalName, sectorX, sectorY, nameMappings)
  {
    var metadataXml := metadata;
    var names := FindAll(metadataXml, "Name");
    MatchingFirst(metadataXml, "Name");
    if |names| == 0 {
      return Failure(NoNameElements);
    }
    if canonicalName !in nameMappings {
      if metadataXml[names[0]].text != Some(canonicalName) {
        return Failure(FirstNameMismatch);
      }
    } else {
      var originalName := nameMappings[canonicalName];
      if metadataXml[names[0]].text != Some(originalName) {
        return Failure(MappedNameMismatch);
      }
      var firstNameIndex := names[0];
      var element := Element("Name", Some(canonicalName), metadataXml[firstNameIndex].tail);
      metadataXml := metadataXml[..firstNameIndex] + [element] + metadataXml[firstNameIndex..];
    }
    var positions := FindAll(metadataXml, "X");
    MatchingFirst(metadataXml, "X");
    if |positions| == 0 {
      return Failure(NoXElement);
    }
    var px := ParseText(metadataXml[positions[0]].text);
    if px.None? {
      return Failure(XNotAnInteger);
    }
    if px.value != sectorX {
      return Failure(XMismatch);
    }
    positions := FindAll(metadataXml, "Y");
    MatchingFirst(metadataXml, "Y");
    if |positions| == 0 {
      return Failure(NoYElement);
    }
    var py := ParseText(metadataXml[positions[0]].text);
    if py.None? {
      return Failure(YNotAnInteger);
    }
    if py.value != sectorY {
      return Failure(YMismatch);
    }
    return Success(metadataXml);
  }

  /** Inserting a child with another tag leaves the first child with `tag` what it was. */
  lemma FirstIndexInsert(children: seq<Element>, k: int, e: Element, tag: string)
    requires 0 <= k <= |children| && e.tag != tag
    ensures FirstWith(InsertAt(children, k, e), tag) == FirstWith(children, tag)
  {
    if FirstIndex(children, tag).Some? {
      FirstIndexInsertFound(children, k, e, tag);
    } else {
      FirstIndexInsertAbsent(children, k, e, tag);
    }
  }

  lemma FirstIndexInsertFound(children: seq<Element>, k: int, e: Element, tag: string)
    requires 0 <= k <= |children| && e.tag != tag
    requires FirstIndex(children, tag).Some?
    ensures var j := FirstIndex(children, tag).value;
      FirstIndex(InsertAt(children, k, e), tag) == Some(if j < k then j else j + 1)
  {
    var patched := InsertAt(children, k, e);
    var j := FirstIndex(children, tag).value;
    var j' := if j < k then j else j + 1;
    assert patched[j'] == children[j];
    forall i | 0 <= i < j'
      ensures patched[i].tag != tag
    {
      if i > k {
        assert patched[i] == children[i - 1];
      }
    }
    FirstIndexIs(patched, tag, j');
  }

  /** A child with the tag and none before it: it is the first. */
  lemma FirstIndexIs(children: seq<Element>, tag: string, j: int)
    requires 0 <= j < |children| && children[j].tag == tag
    requires forall i :: 0 <= i < j ==> children[i].tag != tag
    ensures FirstIndex(children, tag) == Some(j)
  {
  }

  lemma FirstIndexInsertAbsent(children: seq<Element>, k: int, e: Element, tag: string)
    requires 0 <= k <= |children| && e.tag != tag
    requires FirstIndex(children, tag).None?
    ensures FirstIndex(InsertAt(children, k, e), tag).None?
  {
    var patched := InsertAt(children, k, e);
    forall i | 0 <= i < |patched|
      ensures patched[i].tag != tag
    {
      if i > k {
        assert patched[i] == children[i - 1];
      }
    }
  }

  /** The position check only looks at the first X and the first Y, which an inserted Name does not change. */
  lemma CheckPositionInsert(children: seq<Element>, k: int, e: Element, x: int, y: int)
    requires 0 <= k <= |children| && e.tag == "Name"
    ensures CheckPosition(InsertAt(children, k, e), x, y).Success? <==> CheckPosition(children, x, y).Success?
    ensures CheckPosition(children, x, y).Failure? ==>
      CheckPosition(InsertAt(children, k, e), x, y) == CheckPosition(children, x, y)
  {
    FirstIndexInsert(children, k, e, "X");
    FirstIndexInsert(children, k, e, "Y");
  }

  /** The position holds: a first X and a first Y whose texts are the listing's X and Y. */
  predicate PositionMatches(children: seq<Element>, x: int, y: int)
  {
    var fx, fy := FirstWith(children, "X"), FirstWith(children, "Y");
    fx.Some? && fy.Some? && ParseText(fx.value.text) == Some(x) && ParseText(fy.value.text) == Some(y)
  }

  lemma CheckPositionMeaning(children: seq<Element>, x: int, y: int)
    ensures CheckPosition(children, x, y).Success? <==> PositionMatches(children, x, y)
    ensures CheckPosition(children, x, y).Success? ==> CheckPosition(children, x, y).value == children
  {
  }

  /**
   * The step succeeds exactly when the document has a Name, its first Name is
   * the expected one, and its position is the listing's; the checks are made
   * on the original document, the insertion changing none of them.
   */
  lemma PatchSucceeds(children: seq<Element>, canonicalName: string, x: int, y: int, nameMappings: map<string, string>)
    ensures Patch(children, canonicalName, x, y, nameMappings).Success? <==>
      (FirstIndex(children, "Name").Some?
       && children[FirstIndex(children, "Name").value].text == Some(ExpectedFirstName(canonicalName, nameMappings))
       && PositionMatches(children, x, y))
  {
    CheckPositionMeaning(children, x, y);
    match FirstIndex(children, "Name")
    case None =>
    case Some(k) =>
      var e := Element("Name", Some(canonicalName), children[k].tail);
      CheckPositionInsert(children, k, e, x, y);
  }

  /**
   * What a successful step writes: the document unchanged for a sector that
   * was not renamed; for a renamed one, a new first Name holding the new name,
   * with the old first Name kept right after it as the first alternate.
   */
  lemma PatchResult(children: seq<Element>, canonicalName: string, x: int, y: int, nameMappings: map<string, string>)
    requires Patch(children, canonicalName, x, y, nameMappings).Success?
    ensures var k := FirstIndex(children, "Name").value;
      var patched := Patch(children, canonicalName, x, y, nameMappings).value;
      if canonicalName in nameMappings then
        patched == children[..k] + [Element("Name", Some(canonicalName), children[k].tail)] + children[k..]
      else patched == children
    ensures var patched := Patch(children, canonicalName, x, y, nameMappings).value;
      FirstIndex(patched, "Name").Some? && patched[FirstIndex(patched, "Name").value].text == Some(canonicalName)
  {
    var k := FirstIndex(children, "Name").value;
    if canonicalName in nameMappings {
      var e := Element("Name", Some(canonicalName), children[k].tail);
      var patched := InsertAt(children, k, e);
      CheckPositionMeaning(patched, x, y);
      assert FirstIndex(patched, "Name") == Some(k);
    } else {
      CheckPositionMeaning(children, x, y);
    }
  }

  /**
   * The written document is consistent on its own: checked again as a sector
   * that was not renamed, it passes and nothing changes.
   */
  lemma PatchSettles(children: seq<Element>, canonicalName: string, x: int, y: int, nameMappings: map<string, string>)
    requires Patch(children, canonicalName, x, y, nameMappings).Success?
    ensures var patched := Patch(children, canonicalName, x, y, nameMappings).value;
      Patch(patched, canonicalName, x, y, nameMappings - {canonicalName}) == Success(patched)
  {
    var k := FirstIndex(children, "Name").value;
    PatchResult(children, canonicalName, x, y, nameMappings);
    PatchSucceeds(children, canonicalName, x, y, nameMappings);
    var patched := Patch(children, canonicalName, x, y, nameMappings).value;
    CheckPositionMeaning(children, x, y);
    if canonicalName in nameMappings {
      var e := Element("Name", Some(canonicalName), children[k].tail);
      CheckPositionInsert(children, k, e, x, y);
      CheckPositionMeaning(patched, x, y);
    }
  }
}
