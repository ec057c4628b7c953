/**
 * The document-only helpers of the command-line client: queries over the
 * result document an operation returns, and the construction of a
 * deployment operation. A Java `null` argument or result is `None`; a typed
 * accessor that refuses its node surfaces as `Err`.
 */
module CliUtil {
  import opened Wrappers
  import opened Dmr

  const OutcomeKey := "outcome"
  const SuccessOutcome := "success"
  const FailureDescriptionKey := "failure-description"
  const ResultKey := "result"
  const RequestPropertiesKey := "request-properties"
  const ServerGroupKey := "server-group"
  const DeploymentKey := "deployment"

  /** The result document reports success: its `outcome` is the string `success`. */
  predicate Succeeded(n: Node) {
    (n.Undefined? || n.Object?) && Lookup(n, OutcomeKey) == Str(SuccessOutcome)
  }

  /**
   * `isSuccess`: false for no result; otherwise whether `outcome` renders as
   * `success`. Reading `outcome` fails when the result is not an object or
   * `outcome` has no string form.
   */
  function IsSuccess(operationResult: Option<Node>): (r: Result<bool, NodeError>)
    ensures operationResult.None? ==> r == Ok(false)
    ensures r == Ok(true) <==> operationResult.Some? && Succeeded(operationResult.value)
    ensures operationResult.Some? ==>
      (r.Err? <==> !Get(operationResult.value, OutcomeKey).Ok?
                   || !AsString(Get(operationResult.value, OutcomeKey).value).Ok?)
  {
    match operationResult
    case None => Ok(false)
    case Some(n) =>
      var outcome :- Get(n, OutcomeKey);
      var text :- AsString(outcome);
      Ok(text == SuccessOutcome)
  }

  /** `getFailureDescription`: None for no result, else the string form of `failure-description`. */
  function GetFailureDescription(operationResult: Option<Node>): (r: Result<Option<string>, NodeError>)
    ensures operationResult.None? ==> r == Ok(None)
    ensures r.Ok? && r.value.None? ==> operationResult.None?
    ensures operationResult.Some? && !(operationResult.value.Undefined? || operationResult.value.Object?) ==>
      r == Err(TypeError(ObjectKind, KindOf(operationResult.value)))
    ensures operationResult.Some? && (operationResult.value.Undefined? || operationResult.value.Object?) ==>
      var description := Lookup(operationResult.value, FailureDescriptionKey);
      && (r.Ok? <==> AsString(description).Ok?)
      && (r.Ok? ==> r.value == Some(AsString(description).value))
      && (r.Err? ==> r.error == TypeError(StringKind, KindOf(description)))
  {
    match operationResult
    case None => Ok(None)
    case Some(n) =>
      var description :- Get(n, FailureDescriptionKey);
      var text :- AsString(description);
      Ok(Some(text))
  }

  /**
   * A failure description stored in a result document is the one reported,
   * whatever else the document holds; a result without one has no string
   * form to report.
   */
  lemma FailureDescriptionReported(n: Node, description: string)
    requires n.Undefined? || n.Object?
    ensures GetFailureDescription(Some(Put(n, FailureDescriptionKey, Str(description)))) == Ok(Some(description))
    ensures !Has(n, FailureDescriptionKey) ==>
      GetFailureDescription(Some(n)) == Err(TypeError(StringKind, UndefinedKind))
  {
  }

  /** The string form of every item, in order; fails on the first item without one. */
  function RenderAll(items: seq<Node>): (r: Result<seq<string>, NodeError>)
    ensures r.Ok? <==> forall i :: 0 <= i < |items| ==> AsString(items[i]).Ok?
    ensures r.Ok? ==> |r.value| == |items|
    ensures r.Ok? ==> forall i :: 0 <= i < |items| ==> r.value[i] == AsString(items[i]).value
  {
    if items == [] then Ok([])
    else
      assert forall i :: 1 <= i < |items| ==> items[i] == items[1..][i - 1];
      var head :- AsString(items[0]);
      var rest :- RenderAll(items[1..]);
      Ok([head] + rest)
  }

  /** `getList`: the string forms of the `result` list, empty when `result` is not defined. */
  function GetList(operationResult: Node): (r: Result<seq<string>, NodeError>)
    ensures !HasDefined(operationResult, ResultKey) ==> r == Ok([])
    ensures HasDefined(operationResult, ResultKey) && !Lookup(operationResult, ResultKey).List? ==>
      r == Err(TypeError(ListKind, KindOf(Lookup(operationResult, ResultKey))))
    ensures HasDefined(operationResult, ResultKey) && Lookup(operationResult, ResultKey).List? ==>
      var items := Lookup(operationResult, ResultKey).items;
      && (r.Ok? <==> forall i :: 0 <= i < |items| ==> AsString(items[i]).Ok?)
      && (r.Ok? ==> |r.value| == |items| && forall i :: 0 <= i < |items| ==> AsString(items[i]) == Ok(r.value[i]))
  {
    if !HasDefined(operationResult, ResultKey) then Ok([])
    else
      var items :- AsList(Lookup(operationResult, ResultKey));
      if items == [] then Ok([])
      else RenderAll(items)
  }

  /** Whether some item renders as `item`, scanning in order and stopping at the first match. */
  function ContainsRendered(items: seq<Node>, item: string): (r: Result<bool, NodeError>)
    ensures r == Ok(true) <==>
      exists i :: 0 <= i < |items| && AsString(items[i]) == Ok(item)
                  && forall j :: 0 <= j < i ==> AsString(items[j]).Ok?
    ensures r == Ok(false) <==> forall i :: 0 <= i < |items| ==> AsString(items[i]).Ok? && AsString(items[i]) != Ok(item)
  {
    if items == [] then Ok(false)
    else
      assert forall i :: 1 <= i < |items| ==> items[i] == items[1..][i - 1];
      var text :- AsString(items[0]);
      if text == item then Ok(true)
      else
        var r := ContainsRendered(items[1..], item);
        assert r == Ok(true) ==> exists i :: 1 <= i < |items| && AsString(items[i]) == Ok(item)
                  && forall j :: 0 <= j < i ==> AsString(items[j]).Ok? by {
          if r == Ok(true) {
            var i :| 0 <= i < |items[1..]| && AsString(items[1..][i]) == Ok(item)
                     && forall j :: 0 <= j < i ==> AsString(items[1..][j]).Ok?;
            assert AsString(items[i + 1]) == Ok(item);
          }
        }
        r
  }

  /** `listContains`: whether some item of the `result` list renders as `item`. */
  function ListContains(operationResult: Node, item: string): (r: Result<bool, NodeError>)
    ensures !HasDefined(operationResult, ResultKey) ==> r == Ok(false)
    ensures HasDefined(operationResult, ResultKey) && !Lookup(operationResult, ResultKey).List? ==>
      r == Err(TypeError(ListKind, KindOf(Lookup(operationResult, ResultKey))))
    ensures HasDefined(operationResult, ResultKey) && Lookup(operationResult, ResultKey).List? ==>
      r == ContainsRendered(Lookup(operationResult, ResultKey).items, item)
  {
    if !HasDefined(operationResult, ResultKey) then Ok(false)
    else
      var items :- AsList(Lookup(operationResult, ResultKey));
      if items == [] then Ok(false)
      else ContainsRendered(items, item)
  }

  /**
   * Whenever `getList` succeeds, `listContains` agrees with membership in its
   * list. (`listContains` can also succeed where `getList` fails: it stops
   * at the first match and never renders the items after it.)
   */
  lemma ListContainsIsMembership(operationResult: Node, item: string)
    requires GetList(operationResult).Ok?
    ensures ListContains(operationResult, item) == Ok(item in GetList(operationResult).value)
  {
    var list := GetList(operationResult).value;
    if HasDefined(operationResult, ResultKey) {
      var items := Lookup(operationResult, ResultKey).items;
      if item in list {
        var i :| 0 <= i < |list| && list[i] == item;
        var k :| 0 <= k <= i && list[k] == item && forall j :: 0 <= j < k ==> list[j] != item by {
          FirstIndex(list, item, i);
        }
        assert AsString(items[k]) == Ok(item);
      }
    }
  }

  lemma {:induction false} FirstIndex(s: seq<string>, x: string, i: nat)
    requires i < |s| && s[i] == x
    ensures exists k :: 0 <= k <= i && s[k] == x && forall j :: 0 <= j < k ==> s[j] != x
    decreases i
  {
    if exists j :: 0 <= j < i && s[j] == x {
      var j :| 0 <= j < i && s[j] == x;
      FirstIndex(s, x, j);
    }
  }

  /** An item found before any unrenderable one is reported even when `getList` fails on a later item. */
  lemma ListContainsStopsAtFirstMatch(item: string)
    ensures var operationResult := Object([Member(ResultKey, List([Str(item), Undefined]))]);
      GetList(operationResult).Err? && ListContains(operationResult, item) == Ok(true)
  {
    var operationResult := Object([Member(ResultKey, List([Str(item), Undefined]))]);
    assert Keys(operationResult) == [ResultKey];
    assert Lookup(operationResult, ResultKey) == List([Str(item), Undefined]);
    var items := [Str(item), Undefined];
    assert HasDefined(operationResult, ResultKey);
    assert AsString(items[0]) == Ok(item);
    assert !AsString(items[1]).Ok?;
    assert ContainsRendered(items, item) == Ok(true);
  }

  /** `getHash`: the bytes of `result`, None when it is not defined. */
  function GetHash(operationResult: Node): (r: Result<Option<seq<byte>>, NodeError>)
    ensures r == Ok(None) <==> !HasDefined(operationResult, ResultKey)
    ensures r.Err? <==> HasDefined(operationResult, ResultKey) && !Lookup(operationResult, ResultKey).Bytes?
    ensures r.Ok? && r.value.Some? ==> Lookup(operationResult, ResultKey) == Bytes(r.value.value)
  {
    if !HasDefined(operationResult, ResultKey) then Ok(None)
    else
      var bytes :- AsBytes(Lookup(operationResult, ResultKey));
      Ok(Some(bytes))
  }

  /** `getRequestPropertyNames`: the names under `result.request-properties`, in order. */
  function GetRequestPropertyNames(operationResult: Node): (r: Result<seq<string>, NodeError>)
    ensures !HasDefined(operationResult, ResultKey) ==> r == Ok([])
    ensures !HasDefined(Lookup(operationResult, ResultKey), RequestPropertiesKey) ==> r == Ok([])
    ensures r.Err? <==>
      HasDefined(Lookup(operationResult, ResultKey), RequestPropertiesKey)
      && !Lookup(Lookup(operationResult, ResultKey), RequestPropertiesKey).Object?
    ensures r.Ok? ==> r.value == Keys(Lookup(Lookup(operationResult, ResultKey), RequestPropertiesKey))
  {
    if !HasDefined(operationResult, ResultKey) then Ok([])
    else
      var result := Lookup(operationResult, ResultKey);
      if !HasDefined(result, RequestPropertiesKey) then Ok([])
      else
        var properties :- AsPropertyList(Lookup(result, RequestPropertiesKey));
        if properties == [] then Ok([])
        else Ok(KeysOf(properties))
  }

  /** The request-property names come back in the order they were added, each once. */
  lemma RequestPropertyNamesInOrder(properties: seq<Member>)
    requires UniqueKeys(properties)
    ensures var operationResult := Put(Undefined, ResultKey, Put(Undefined, RequestPropertiesKey, Object(properties)));
      && GetRequestPropertyNames(operationResult).Ok?
      && |GetRequestPropertyNames(operationResult).value| == |properties|
      && Distinct(GetRequestPropertyNames(operationResult).value)
      && forall i :: 0 <= i < |properties| ==> GetRequestPropertyNames(operationResult).value[i] == properties[i].key
  {
  }

  /**
   * `configureDeploymentOperation`: names the operation and addresses the
   * deployment, below the server group when one is given.
   */
  function ConfigureDeploymentOperation(operationName: string, uniqueName: string, serverGroup: Option<string>): (r: Node)
    ensures Keys(r) == [OperationKey, AddressKey]
    ensures Lookup(r, OperationKey) == Str(operationName)
    ensures Lookup(r, AddressKey) == List(DeploymentAddress(uniqueName, serverGroup))
  {
    var op := Put(Undefined, OperationKey, Str(operationName));
    assert OperationKey != AddressKey by { assert OperationKey[0] != AddressKey[0]; }
    var op := if serverGroup.Some?
      then Put(op, AddressKey, Append(Lookup(op, AddressKey), Segment(ServerGroupKey, serverGroup.value)))
      else op;
    Put(op, AddressKey, Append(Lookup(op, AddressKey), Segment(DeploymentKey, uniqueName)))
  }

  /** The address of a deployment: the server group segment when there is one, then the deployment segment. */
  function DeploymentAddress(uniqueName: string, serverGroup: Option<string>): seq<Node> {
    (if serverGroup.Some? then [Segment(ServerGroupKey, serverGroup.value)] else []) + [Segment(DeploymentKey, uniqueName)]
  }

  /** The built operation holds exactly the operation name and then the deployment's address. */
  lemma DeploymentOperationShape(operationName: string, uniqueName: string, serverGroup: Option<string>)
    ensures ConfigureDeploymentOperation(operationName, uniqueName, serverGroup)
      == Object([Member(OperationKey, Str(operationName)), Member(AddressKey, List(DeploymentAddress(uniqueName, serverGroup)))])
  {
    var name := Str(operationName);
    var deployment := Segment(DeploymentKey, uniqueName);
    if serverGroup.Some? {
      var group := Segment(ServerGroupKey, serverGroup.value);
      PutSecondMember(OperationKey, name, AddressKey, List([group]));
      PutReplaceSecond(OperationKey, name, AddressKey, List([group]), List([group, deployment]));
    } else {
      PutSecondMember(OperationKey, name, AddressKey, List([deployment]));
    }
  }

  /** The value of a one-member address segment of the given type. */
  function SegmentValue(segment: Node, segmentType: string): Option<string> {
    if segment.Object? && |segment.members| == 1 && segment.members[0].key == segmentType && segment.members[0].value.Str?
    then Some(segment.members[0].value.text)
    else None
  }

  /** The target an operation's address names: the server group when there is one, and the deployment. */
  function DeploymentTarget(op: Node): Option<(Option<string>, string)> {
    var address := Lookup(op, AddressKey);
    if !address.List? then None
    else if |address.items| == 1 then
      var deployment := SegmentValue(address.items[0], DeploymentKey);
      if deployment.Some? then Some((None, deployment.value)) else None
    else if |address.items| == 2 then
      var group := SegmentValue(address.items[0], ServerGroupKey);
      var deployment := SegmentValue(address.items[1], DeploymentKey);
      if group.Some? && deployment.Some? then Some((group, deployment.value)) else None
    else None
  }

  /** The built operation addresses exactly the requested target, server group first. */
  lemma DeploymentTargetRoundTrip(operationName: string, uniqueName: string, serverGroup: Option<string>)
    ensures DeploymentTarget(ConfigureDeploymentOperation(operationName, uniqueName, serverGroup)) == Some((serverGroup, uniqueName))
  {
    DeploymentOperationShape(operationName, uniqueName, serverGroup);
    AddressedTarget(Str(operationName), uniqueName, serverGroup);
  }

  lemma AddressedTarget(name: Node, uniqueName: string, serverGroup: Option<string>)
    ensures DeploymentTarget(Object([Member(OperationKey, name), Member(AddressKey, List(DeploymentAddress(uniqueName, serverGroup)))]))
      == Some((serverGroup, uniqueName))
  {
    var op := Object([Member(OperationKey, name), Member(AddressKey, List(DeploymentAddress(uniqueName, serverGroup)))]);
    assert op.members[1..] == [Member(AddressKey, List(DeploymentAddress(uniqueName, serverGroup)))];
    assert Find(op.members[1..], AddressKey) == List(DeploymentAddress(uniqueName, serverGroup));
    assert OperationKey != AddressKey by { assert OperationKey[0] != AddressKey[0]; }
    assert Lookup(op, AddressKey) == List(DeploymentAddress(uniqueName, serverGroup));
  }
}
