/** Finding a product in the AWS Marketplace catalog: the entity and change type
    identifiers, the entity-ID lookup over one ListEntities answer, and the
    resolution of a product name over the eight product types. */
module Catalog {
  import opened Common

  /** The product types every command tries, in this order. */
  const ProductTypes: seq<string> := [
    "ServerProduct",
    "ContainerProduct",
    "DataProduct",
    "MachinelearningProduct",
    "SaaSProduct",
    "ServiceProduct",
    "SolutionProduct",
    "SupportProduct"
  ]

  /** One entry of the `Versions` list of a DescribeEntity document: its title, and
      every other field as one value. */
  datatype CatalogVersion<F> = CatalogVersion(versionTitle: string, fields: F)

  /** The DescribeEntity document of a product (EntityDetails): the version list, and
      every other section as one value. */
  datatype EntityDetails<F, D> = EntityDetails(versions: seq<CatalogVersion<F>>, rest: D)

  // ---- getEntityTypeAndChangeType ----

  /** The entity type identifier and change type used to update a product. */
  function EntityTypeAndChangeType(productType: string): (string, string)
  {
    match productType
    case "ServerProduct" => ("ServerProduct@1.0", "UpdateInformation")
    case "ContainerProduct" => ("ContainerProduct@1.0", "UpdateInformation")
    case "DataProduct" => ("DataProduct@1.0", "UpdateInformation")
    case "MachinelearningProduct" => ("MachinelearningProduct@1.0", "UpdateInformation")
    case "SaaSProduct" => ("SaaSProduct@1.0", "UpdateInformation")
    case "ServiceProduct" => ("ServiceProduct@1.0", "UpdateInformation")
    case "SolutionProduct" => ("SolutionProduct@1.0", "UpdateInformation")
    case "SupportProduct" => ("SupportProduct@1.0", "UpdateInformation")
    case _ => (productType + "@1.0", "UpdateInformation")
  }

  /** The eight named cases agree with the default: every type maps to itself
      followed by "@1.0", and the change type is always "UpdateInformation". */
  lemma EntityTypeIsVersioned(productType: string)
    ensures EntityTypeAndChangeType(productType) == (productType + "@1.0", "UpdateInformation")
  {
    var suffix := "@1.0";
    match productType
    case "ServerProduct" => assert "ServerProduct" + suffix == "ServerProduct@1.0";
    case "ContainerProduct" => assert "ContainerProduct" + suffix == "ContainerProduct@1.0";
    case "DataProduct" => assert "DataProduct" + suffix == "DataProduct@1.0";
    case "MachinelearningProduct" => assert "MachinelearningProduct" + suffix == "MachinelearningProduct@1.0";
    case "SaaSProduct" => assert "SaaSProduct" + suffix == "SaaSProduct@1.0";
    case "ServiceProduct" => assert "ServiceProduct" + suffix == "ServiceProduct@1.0";
    case "SolutionProduct" => assert "SolutionProduct" + suffix == "SolutionProduct@1.0";
    case "SupportProduct" => assert "SupportProduct" + suffix == "SupportProduct@1.0";
    case _ =>
  }

  // ---- getProductEntityID ----

  /** Where the first summary named `name` sits, if any summary has that name. */
  function FirstNamed(entities: seq<EntitySummary>, name: string): (r: Option<nat>)
    ensures r.Some? ==>
              r.value < |entities| && entities[r.value].name == name &&
              forall j :: 0 <= j < r.value ==> entities[j].name != name
    ensures r.None? ==> forall j :: 0 <= j < |entities| ==> entities[j].name != name
  {
    if entities == [] then None
    else if entities[0].name == name then Some(0)
    else
      match FirstNamed(entities[1..], name)
      case None => None
      case Some(k) => Some(k + 1)
  }

  /** getProductEntityID, given the answer of its single ListEntities call for the
      product type. */
  function LookupEntity(productName: string, productType: string, answer: Result<Page, ApiError>): Result<string, Error>
  {
    match answer
    case Failure(e) => Failure(Api(e))
    case Success(page) =>
      if |page.entities| == 0 then Failure(NoEntities(productName, productType))
      else
        match FirstNamed(page.entities, productName)
        case Some(i) => Success(page.entities[i].entityId)
        case None => Failure(EntityNotFound(productName, productType))
  }

  /** What a lookup returns: the call's own error, an error for an empty answer, the
      ID of the first summary carrying the name, or "entity not found". */
  lemma LookupEntityFindsFirst(productName: string, productType: string, answer: Result<Page, ApiError>)
    ensures answer.Failure? ==> LookupEntity(productName, productType, answer) == Failure(Api(answer.error))
    ensures answer.Success? ==>
              var es := answer.value.entities;
              var r := LookupEntity(productName, productType, answer);
              && (es == [] ==> r == Failure(NoEntities(productName, productType)))
              && (es != [] && (forall j :: 0 <= j < |es| ==> es[j].name != productName) ==>
                    r == Failure(EntityNotFound(productName, productType)))
              && (forall i :: 0 <= i < |es| && es[i].name == productName &&
                    (forall j :: 0 <= j < i ==> es[j].name != productName)
                    ==> r == Success(es[i].entityId))
  {
  }

  /** getProductEntityID as the Go code runs it: a scan that returns at the first
      summary whose name matches. */
  method GetProductEntityID(productName: string, productType: string, answer: Result<Page, ApiError>)
    returns (r: Result<string, Error>)
    ensures r == LookupEntity(productName, productType, answer)
  {
    if answer.Failure? {
      return Failure(Api(answer.error));
    }
    var entities := answer.value.entities;
    if |entities| == 0 {
      return Failure(NoEntities(productName, productType));
    }
    var i := 0;
    while i < |entities|
      invariant 0 <= i <= |entities|
      invariant forall j :: 0 <= j < i ==> entities[j].name != productName
    {
      if entities[i].name == productName {
        LookupEntityFindsFirst(productName, productType, answer);
        return Success(entities[i].entityId);
      }
      i := i + 1;
    }
    return Failure(EntityNotFound(productName, productType));
  }

  // ---- The container-product lookup that dumpVersions calls ----

  /** The container-product lookup reports the two "not found" cases without the
      type: the first names only the product, the second nothing at all. */
  function ContainerError(e: Error): Error
  {
    match e
    case NoEntities(productName, _) => NoContainerEntities(productName)
    case EntityNotFound(_, _) => ContainerEntityNotFound
    case _ => e
  }

  /** The two-argument getProductEntityID: the same scan over one ListEntities
      answer, for the type "ContainerProduct" only. */
  function LookupContainerEntity(productName: string, answer: Result<Page, ApiError>): Result<string, Error>
  {
    match LookupEntity(productName, "ContainerProduct", answer)
    case Success(id) => Success(id)
    case Failure(e) => Failure(ContainerError(e))
  }

  /** What the container lookup returns: the call's own error, an error naming the
      product for an empty answer, the ID of the first summary carrying the name, or
      a bare "entity not found". */
  lemma ContainerLookupRules(productName: string, answer: Result<Page, ApiError>)
    ensures answer.Failure? ==> LookupContainerEntity(productName, answer) == Failure(Api(answer.error))
    ensures answer.Success? ==>
              var es := answer.value.entities;
              var r := LookupContainerEntity(productName, answer);
              && (es == [] ==> r == Failure(NoContainerEntities(productName)))
              && (es != [] && (forall j :: 0 <= j < |es| ==> es[j].name != productName) ==>
                    r == Failure(ContainerEntityNotFound))
              && (forall i :: 0 <= i < |es| && es[i].name == productName &&
                    (forall j :: 0 <= j < i ==> es[j].name != productName)
                    ==> r == Success(es[i].entityId))
  {
    LookupEntityFindsFirst(productName, "ContainerProduct", answer);
  }

  // ---- Resolution over the product types ----

  /** A product found in the catalog: the type it was found under and its entity ID. */
  datatype Resolved = Resolved(productType: string, entityId: string)

  /** The lookup of `productName` under one type, given what ListEntities answers
      for each type. */
  function LookupIn(productName: string, productType: string,
                    listEntities: string -> Result<Page, ApiError>): Result<string, Error>
  {
    LookupEntity(productName, productType, listEntities(productType))
  }

  /** Tries the types in order and stops at the first successful lookup; when all
      fail, the error is the last type's. */
  function ResolveIn(productName: string, types: seq<string>,
                     listEntities: string -> Result<Page, ApiError>): Result<Resolved, Error>
    requires |types| > 0
  {
    match LookupIn(productName, types[0], listEntities)
    case Success(id) => Success(Resolved(types[0], id))
    case Failure(e) =>
      if |types| == 1 then Failure(e) else ResolveIn(productName, types[1..], listEntities)
  }

  /** The resolution loop of dumpProduct and updateProduct. */
  function ResolveProduct(productName: string, listEntities: string -> Result<Page, ApiError>): Result<Resolved, Error>
  {
    match ResolveIn(productName, ProductTypes, listEntities)
    case Success(found) => Success(found)
    case Failure(last) => Failure(NotInAnySupportedType(productName, last))
  }

  /** Resolution picks the earliest type whose lookup succeeds, and fails only when
      every type fails, with the last type's error. */
  lemma {:induction false} ResolveInPicksEarliest(productName: string, types: seq<string>,
                                                  listEntities: string -> Result<Page, ApiError>)
    requires |types| > 0
    ensures ResolveIn(productName, types, listEntities).Success? ==>
              exists k :: 0 <= k < |types| &&
                LookupIn(productName, types[k], listEntities).Success? &&
                ResolveIn(productName, types, listEntities).value ==
                  Resolved(types[k], LookupIn(productName, types[k], listEntities).value) &&
                forall j :: 0 <= j < k ==> LookupIn(productName, types[j], listEntities).Failure?
    ensures ResolveIn(productName, types, listEntities).Failure? <==>
              forall j :: 0 <= j < |types| ==> LookupIn(productName, types[j], listEntities).Failure?
    ensures ResolveIn(productName, types, listEntities).Failure? ==>
              ResolveIn(productName, types, listEntities).error ==
                LookupIn(productName, types[|types| - 1], listEntities).error
  {
    if LookupIn(productName, types[0], listEntities).Failure? && |types| > 1 {
      var tail := types[1..];
      ResolveInPicksEarliest(productName, tail, listEntities);
      if ResolveIn(productName, tail, listEntities).Success? {
        var k :| 0 <= k < |tail| &&
                 LookupIn(productName, tail[k], listEntities).Success? &&
                 ResolveIn(productName, tail, listEntities).value ==
                   Resolved(tail[k], LookupIn(productName, tail[k], listEntities).value) &&
                 forall j :: 0 <= j < k ==> LookupIn(productName, tail[j], listEntities).Failure?;
        assert types[k + 1] == tail[k];
        assert forall j :: 0 <= j < k + 1 ==> LookupIn(productName, types[j], listEntities).Failure? by {
          forall j | 0 <= j < k + 1 ensures LookupIn(productName, types[j], listEntities).Failure? {
            if j > 0 {
              assert types[j] == tail[j - 1];
            }
          }
        }
      } else {
        assert forall j :: 0 <= j < |types| ==> LookupIn(productName, types[j], listEntities).Failure? by {
          forall j | 0 <= j < |types| ensures LookupIn(productName, types[j], listEntities).Failure? {
            if j > 0 {
              assert types[j] == tail[j - 1];
            }
          }
        }
      }
    }
  }

  /** If the lookups before position `i` fail and the one at `i` succeeds, resolution
      returns position `i`'s type and ID. */
  lemma ResolveInAt(productName: string, types: seq<string>,
                    listEntities: string -> Result<Page, ApiError>, i: nat)
    requires i < |types|
    requires forall j :: 0 <= j < i ==> LookupIn(productName, types[j], listEntities).Failure?
    requires LookupIn(productName, types[i], listEntities).Success?
    ensures ResolveIn(productName, types, listEntities) ==
              Success(Resolved(types[i], LookupIn(productName, types[i], listEntities).value))
  {
    ResolveInPicksEarliest(productName, types, listEntities);
    var r := ResolveIn(productName, types, listEntities);
    assert r.Success?;
    var k :| 0 <= k < |types| &&
             LookupIn(productName, types[k], listEntities).Success? &&
             r.value == Resolved(types[k], LookupIn(productName, types[k], listEntities).value) &&
             forall j :: 0 <= j < k ==> LookupIn(productName, types[j], listEntities).Failure?;
  }

  /** The resolution loop as dumpProduct and updateProduct write it: one lookup per
      type, keeping the last error, leaving the loop at the first success. */
  method ResolveProductType(productName: string, listEntities: string -> Result<Page, ApiError>)
    returns (r: Result<Resolved, Error>)
    ensures r == ResolveProduct(productName, listEntities)
  {
    var entityId: string := "";
    var foundType: string := "";
    var lastErr: Option<Error> := None;
    var i := 0;
    while i < |ProductTypes|
      invariant 0 <= i <= |ProductTypes|
      invariant forall j :: 0 <= j < i ==> LookupIn(productName, ProductTypes[j], listEntities).Failure?
      invariant i == 0 <==> lastErr.None?
      invariant i > 0 ==> lastErr == Some(LookupIn(productName, ProductTypes[i - 1], listEntities).error)
    {
      var res := GetProductEntityID(productName, ProductTypes[i], listEntities(ProductTypes[i]));
      if res.Success? {
        entityId, foundType, lastErr := res.value, ProductTypes[i], None;
        ResolveInAt(productName, ProductTypes, listEntities, i);
        break;
      }
      lastErr := Some(res.error);
      i := i + 1;
    }
    if lastErr.Some? {
      ResolveInPicksEarliest(productName, ProductTypes, listEntities);
      return Failure(NotInAnySupportedType(productName, lastErr.value));
    }
    return Success(Resolved(foundType, entityId));
  }
}
