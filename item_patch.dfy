/** The item patches an update applies: each patch object sent by the client
    is projected onto the preparation fields a cook may set. */
module ItemPatch {
  import opened OrderModel

  /** The only item keys an update may carry, in the order they are copied. */
  const AllowedItemParams: seq<string> := ["cook", "start", "end"]

  /** The intended projection of one patch object: the whitelisted keys whose
      value is truthy, each with the value it had. */
  function ItemPatchOf(item: Item): (patch: Item)
    ensures patch.Keys <= {"cook", "start", "end"}
    ensures forall k :: k in patch <==> k in AllowedItemParams && k in item && Truthy(item[k])
    ensures forall k :: k in patch ==> patch[k] == item[k]
  {
    map k | k in AllowedItemParams && k in item && Truthy(item[k]) :: item[k]
  }

  /** The projection of every patch object of a request, in order. */
  function PatchesOf(items: seq<Item>): (patches: seq<Item>)
    ensures |patches| == |items|
    ensures forall i :: 0 <= i < |items| ==> patches[i] == ItemPatchOf(items[i])
  {
    seq(|items|, i requires 0 <= i < |items| => ItemPatchOf(items[i]))
  }

  /** Fills the response key by key, copying a whitelisted key only when its
      value is truthy (the corrected form: the response starts as an empty
      object). */
  method ParseItemsForUpdate(item: Item) returns (response: Item)
    ensures response == ItemPatchOf(item)
  {
    response := map[];
    for i := 0 to |AllowedItemParams|
      invariant forall k :: k in response <==> k in AllowedItemParams[..i] && k in item && Truthy(item[k])
      invariant forall k :: k in response ==> response[k] == item[k]
    {
      var key := AllowedItemParams[i];
      if key in item && Truthy(item[key]) {
        response := response[key := item[key]];
      }
    }
    assert AllowedItemParams[..|AllowedItemParams|] == AllowedItemParams;
  }

  /** `updatedInfo.items.map(parseItemsForUpdate)`. */
  method ParseItemPatches(items: seq<Item>) returns (patches: seq<Item>)
    ensures patches == PatchesOf(items)
  {
    patches := [];
    for i := 0 to |items|
      invariant patches == PatchesOf(items[..i])
    {
      var patch := ParseItemsForUpdate(items[i]);
      patches := patches + [patch];
    }
    assert items[..|items|] == items;
  }

  /** How the helper as written ends: its `response` is never initialised, so
      the first truthy whitelisted key makes it write into `undefined` and
      throw; when no key is truthy it returns `undefined` itself. */
  datatype AsWrittenOutcome = Throws | Undefined

  function ParseItemsAsWritten(item: Item): AsWrittenOutcome
  {
    if exists k :: k in AllowedItemParams && k in item && Truthy(item[k]) then Throws else Undefined
  }

  /** The helper as written never yields a patch: it throws exactly when the
      intended patch would be non-empty, and otherwise yields `undefined`
      where the empty patch was meant. */
  lemma AsWrittenNeverYieldsPatch(item: Item)
    ensures ParseItemsAsWritten(item) == Throws <==> ItemPatchOf(item) != map[]
    ensures ParseItemsAsWritten(item) == Undefined <==> ItemPatchOf(item) == map[]
  {
    if ParseItemsAsWritten(item) == Throws {
      var k :| k in AllowedItemParams && k in item && Truthy(item[k]);
      assert k in ItemPatchOf(item);
    }
  }

  /** A patch that only sets the cook shows the difference. */
  lemma CookPatchCounterexample()
    ensures ParseItemsAsWritten(map["cook" := Str("u7")]) == Throws
    ensures ItemPatchOf(map["cook" := Str("u7")]) == map["cook" := Str("u7")]
  {
    var item := map["cook" := Str("u7")];
    assert "cook" in AllowedItemParams;
    assert ItemPatchOf(item).Keys == {"cook"};
  }
}
