/**
 * Event filters and what of them is pushed down into SQL
 * (combineContractIDs, combineEventTypes and combineTopics in
 * cmd/stellar-rpc/internal/methods/get_events.go, the WHERE clause of GetEvents in
 * cmd/stellar-rpc/internal/db/event.go).
 */
module EventFilter {
  import opened Cursors
  import opened Ledgers
  import opened Wrappers

  const MAX_TOPIC_COUNT: nat := 4

  /** A contract address in a request: the encoding of an ID, or text that does not decode. */
  datatype StrKey = Encoded(id: ContractId) | Malformed(text: string)

  /** One segment of a topic filter: `*`, `**` or a value. */
  datatype Segment = AnyOne | AnyRest | Exact(value: ScVal)

  datatype Filter = Filter(contractIds: seq<StrKey>, types: set<int>, topics: seq<seq<Segment>>)

  datatype TopicCondition = TopicCondition(column: nat, value: ScVal)

  // ---------- what a request asks for ----------

  /** Segment by segment; `**` accepts whatever is left, and without it the lengths must agree. */
  predicate TopicMatches(filter: seq<Segment>, topics: seq<ScVal>) {
    if filter == [] then topics == []
    else if filter[0].AnyRest? then true
    else topics != [] && (filter[0].Exact? ==> filter[0].value == topics[0]) && TopicMatches(filter[1..], topics[1..])
  }

  predicate ContractMatches(f: Filter, e: Event) {
    f.contractIds == [] || (e.contractId.Some? && Encoded(e.contractId.value) in f.contractIds)
  }

  predicate TypeMatches(f: Filter, e: Event) {
    f.types == {} || e.eventType in f.types
  }

  predicate FilterMatches(f: Filter, e: Event) {
    && ContractMatches(f, e)
    && TypeMatches(f, e)
    && (f.topics == [] || exists t :: t in f.topics && TopicMatches(t, e.topics))
  }

  /** OR over filters, AND within a filter, OR over topic filters; no filter at all accepts every event. */
  predicate Matches(filters: seq<Filter>, e: Event) {
    filters == [] || exists f :: f in filters && FilterMatches(f, e)
  }

  /** Request validation: values only where there is a topic column, `**` only last. */
  predicate ValidTopic(t: seq<Segment>) {
    forall i :: 0 <= i < |t| ==> (t[i].Exact? ==> i < MAX_TOPIC_COUNT) && (t[i].AnyRest? ==> i == |t| - 1)
  }

  predicate ValidFilters(filters: seq<Filter>) {
    forall i, k :: 0 <= i < |filters| && 0 <= k < |filters[i].topics| ==> ValidTopic(filters[i].topics[k])
  }

  // ---------- what matching means ----------

  /**
   * A topic filter accepts topics exactly when there are as many as segments, or at least as many as those
   * before a last `**`, and every value stands at its place.
   */
  lemma {:induction false} TopicMatchesIff(t: seq<Segment>, topics: seq<ScVal>)
    requires forall i :: 0 <= i < |t| && t[i].AnyRest? ==> i == |t| - 1
    ensures var open := t != [] && t[|t| - 1].AnyRest?;
            TopicMatches(t, topics)
            <==> && (if open then |t| - 1 <= |topics| else |t| == |topics|)
                 && forall i :: 0 <= i < |t| && t[i].Exact? ==> i < |topics| && topics[i] == t[i].value
  {
    if t != [] && !t[0].AnyRest? && topics != [] {
      TopicMatchesIff(t[1..], topics[1..]);
      assert forall i :: 0 < i < |t| ==> t[i] == t[1..][i - 1];
      assert forall i :: 0 < i < |topics| ==> topics[i] == topics[1..][i - 1];
    }
  }

  /** A filter accepts an event exactly when it names its contract, its type and its topics, or leaves them open. */
  lemma FilterMatchesIff(f: Filter, e: Event)
    ensures FilterMatches(f, e)
       <==> && (f.contractIds == [] ||
                exists k :: 0 <= k < |f.contractIds| && f.contractIds[k].Encoded?
                            && e.contractId == Some(f.contractIds[k].id))
            && (f.types == {} || e.eventType in f.types)
            && (f.topics == [] || exists k :: 0 <= k < |f.topics| && TopicMatches(f.topics[k], e.topics))
  {
    hide TopicMatches;
    if e.contractId.Some? && Encoded(e.contractId.value) in f.contractIds {
      var k :| 0 <= k < |f.contractIds| && f.contractIds[k] == Encoded(e.contractId.value);
    }
    if t :| t in f.topics && TopicMatches(t, e.topics) {
      var k :| 0 <= k < |f.topics| && f.topics[k] == t;
    }
  }

  /** A request accepts an event exactly when it has no filter or some filter accepts it. */
  lemma MatchesIff(filters: seq<Filter>, e: Event)
    ensures Matches(filters, e) <==> filters == [] || exists i :: 0 <= i < |filters| && FilterMatches(filters[i], e)
  {
    hide FilterMatches;
    if f :| f in filters && FilterMatches(f, e) {
      var i :| 0 <= i < |filters| && filters[i] == f;
    }
  }

  // ---------- the WHERE clause ----------

  /** The columns topic1 to topic4; None is NULL. */
  function TopicColumn(e: Event, column: nat): Option<ScVal> {
    if 1 <= column <= MAX_TOPIC_COUNT && column <= |e.topics| then Some(e.topics[column - 1]) else None
  }

  predicate ConditionsHold(conditions: seq<TopicCondition>, e: Event) {
    forall c :: c in conditions ==> TopicColumn(e, c.column) == Some(c.value)
  }

  predicate TopicsWhere(topics: seq<seq<TopicCondition>>, e: Event) {
    topics == [] || exists c :: c in topics && ConditionsHold(c, e)
  }

  predicate Where(contractIds: seq<ContractId>, types: seq<int>, topics: seq<seq<TopicCondition>>, e: Event) {
    && (contractIds == [] || (e.contractId.Some? && e.contractId.value in contractIds))
    && (types == [] || e.eventType in types)
    && TopicsWhere(topics, e)
  }

  // ---------- combining contract IDs ----------

  predicate HasMalformed(f: Filter) {
    exists k :: 0 <= k < |f.contractIds| && f.contractIds[k].Malformed?
  }

  /** A malformed address is reported unless a filter without addresses comes first. */
  predicate ReportsMalformed(filters: seq<Filter>) {
    exists i :: 0 <= i < |filters| && HasMalformed(filters[i]) &&
      forall j :: 0 <= j < i ==> filters[j].contractIds != []
  }

  predicate AnyContract(filters: seq<Filter>) {
    exists i :: 0 <= i < |filters| && filters[i].contractIds == []
  }

  predicate Named(filters: seq<Filter>, id: ContractId) {
    exists i :: 0 <= i < |filters| && Encoded(id) in filters[i].contractIds
  }

  predicate NoDuplicates<T(==)>(s: seq<T>) {
    forall p, q :: 0 <= p < q < |s| ==> s[p] != s[q]
  }

  /** combineContractIDs: an error, no restriction, or each named contract once. */
  method CombineContractIDs(filters: seq<Filter>) returns (r: Result<seq<ContractId>>)
    ensures r.Err? <==> ReportsMalformed(filters)
    ensures r.Ok? && AnyContract(filters) ==> r.value == []
    ensures r.Ok? && !AnyContract(filters) ==>
              NoDuplicates(r.value) && forall id :: id in r.value <==> Named(filters, id)
  {
    var seen: set<StrKey> := {};
    var contractIds: seq<ContractId> := [];
    for i := 0 to |filters|
      invariant !ReportsMalformed(filters[..i]) && !AnyContract(filters[..i])
      invariant NoDuplicates(contractIds)
      invariant forall id :: id in contractIds <==> Encoded(id) in seen
      invariant forall id :: Encoded(id) in seen <==> Named(filters[..i], id)
      invariant forall key :: key in seen ==> key.Encoded?
    {
      if filters[i].contractIds == [] {
        StopsAtAnyContract(filters, i);
        return Ok([]);
      }
      ghost var before := seen;
      for k := 0 to |filters[i].contractIds|
        invariant NoDuplicates(contractIds)
        invariant forall id :: id in contractIds <==> Encoded(id) in seen
        invariant forall key :: key in seen <==> key in before || key in filters[i].contractIds[..k]
        invariant forall key :: key in seen ==> key.Encoded?
        invariant forall j :: 0 <= j < k ==> filters[i].contractIds[j].Encoded?
      {
        var key := filters[i].contractIds[k];
        if key !in seen {
          seen := seen + {key};
          if key.Malformed? {
            StopsAtMalformed(filters, i, k);
            return Err("invalid contract ID: " + key.text);
          }
          contractIds := contractIds + [key.id];
        }
      }
      assert filters[i].contractIds[..|filters[i].contractIds|] == filters[i].contractIds;
      OneMoreFilter(filters, i);
      NamedOneMore(filters, i);
    }
    assert filters[..|filters|] == filters;
    r := Ok(contractIds);
  }

  lemma CleanPrefix(filters: seq<Filter>, i: nat, j: nat)
    requires j < i <= |filters| && !ReportsMalformed(filters[..i]) && !AnyContract(filters[..i])
    ensures filters[j].contractIds != [] && !HasMalformed(filters[j])
  {
    assert filters[..i][j] == filters[j];
    assert forall k :: 0 <= k < j ==> filters[..i][k].contractIds != [];
  }

  lemma StopsAtAnyContract(filters: seq<Filter>, i: nat)
    requires i < |filters| && filters[i].contractIds == []
    requires !ReportsMalformed(filters[..i]) && !AnyContract(filters[..i])
    ensures !ReportsMalformed(filters) && AnyContract(filters)
  {
    hide HasMalformed;
    forall j | 0 <= j < i
      ensures !HasMalformed(filters[j])
    {
      CleanPrefix(filters, i, j);
    }
    NoneMalformed(filters[i]);
  }

  lemma NoneMalformed(f: Filter)
    requires f.contractIds == []
    ensures !HasMalformed(f)
  {
  }

  lemma StopsAtMalformed(filters: seq<Filter>, i: nat, k: nat)
    requires i < |filters| && k < |filters[i].contractIds| && filters[i].contractIds[k].Malformed?
    requires !AnyContract(filters[..i])
    ensures ReportsMalformed(filters)
  {
    assert HasMalformed(filters[i]);
    forall j | 0 <= j < i
      ensures filters[j].contractIds != []
    {
      assert filters[..i][j] == filters[j];
    }
  }

  lemma OneMoreFilter(filters: seq<Filter>, i: nat)
    requires i < |filters| && filters[i].contractIds != [] && !HasMalformed(filters[i])
    requires !ReportsMalformed(filters[..i]) && !AnyContract(filters[..i])
    ensures !ReportsMalformed(filters[..i + 1]) && !AnyContract(filters[..i + 1])
  {
    forall j | 0 <= j < i + 1
      ensures filters[j].contractIds != [] && !HasMalformed(filters[j])
    {
      if j < i {
        CleanPrefix(filters, i, j);
      }
    }
  }

  lemma NamedOneMore(filters: seq<Filter>, i: nat)
    requires i < |filters|
    ensures forall id :: Named(filters[..i + 1], id) <==>
              Named(filters[..i], id) || Encoded(id) in filters[i].contractIds
  {
    forall id
      ensures Named(filters[..i + 1], id) <==> Named(filters[..i], id) || Encoded(id) in filters[i].contractIds
    {
      if Named(filters[..i], id) {
        var j :| 0 <= j < i && Encoded(id) in filters[..i][j].contractIds;
        assert Encoded(id) in filters[..i + 1][j].contractIds;
      }
      if Encoded(id) in filters[i].contractIds {
        assert Encoded(id) in filters[..i + 1][i].contractIds;
      }
      if Named(filters[..i + 1], id) {
        var j :| 0 <= j < i + 1 && Encoded(id) in filters[..i + 1][j].contractIds;
        if j < i {
          assert Encoded(id) in filters[..i][j].contractIds;
        }
      }
    }
  }

  // ---------- combining event types ----------

  predicate AnyType(filters: seq<Filter>) {
    exists i :: 0 <= i < |filters| && filters[i].types == {}
  }

  predicate TypeNamed(filters: seq<Filter>, x: int) {
    exists i :: 0 <= i < |filters| && x in filters[i].types
  }

  /** combineEventTypes: no restriction, or each named type once, in some order. */
  method CombineEventTypes(filters: seq<Filter>) returns (types: seq<int>)
    ensures AnyType(filters) ==> types == []
    ensures !AnyType(filters) ==> NoDuplicates(types) && forall x :: x in types <==> TypeNamed(filters, x)
  {
    var eventTypes: set<int> := {};
    for i := 0 to |filters|
      invariant forall j :: 0 <= j < i ==> filters[j].types != {}
      invariant forall x :: x in eventTypes <==> exists j :: 0 <= j < i && x in filters[j].types
    {
      if filters[i].types == {} {
        return [];
      }
      eventTypes := eventTypes + filters[i].types;
    }
    types := [];
    var todo := eventTypes;
    while todo != {}
      invariant NoDuplicates(types) && todo <= eventTypes
      invariant forall x :: x in types <==> x in eventTypes && x !in todo
      decreases todo
    {
      ghost var y := Member(todo);
      assert y in todo;
      var x :| x in todo;
      types := types + [x];
      todo := todo - {x};
    }
  }

  // ---------- combining topics ----------

  /** The conditions of the first n segments. */
  function Conditions(t: seq<Segment>, n: nat): seq<TopicCondition>
    requires n <= |t|
  {
    if n == 0 then []
    else if t[n - 1].Exact? then Conditions(t, n - 1) + [TopicCondition(n, t[n - 1].value)]
    else Conditions(t, n - 1)
  }

  predicate OnlyWildcards(t: seq<Segment>) {
    forall i :: 0 <= i < |t| ==> !t[i].Exact?
  }

  /** The values of the filter are those of the event, position by position. */
  predicate ValuesAgree(t: seq<Segment>, topics: seq<ScVal>) {
    forall i :: 0 <= i < |t| && t[i].Exact? ==> i < |topics| && topics[i] == t[i].value
  }

  lemma {:induction false} ConditionsContents(t: seq<Segment>, n: nat)
    requires n <= |t|
    ensures forall c :: c in Conditions(t, n) <==>
              exists i :: 0 <= i < n && t[i].Exact? && c == TopicCondition(i + 1, t[i].value)
    ensures Conditions(t, n) == [] <==> OnlyWildcards(t[..n])
  {
    if n > 0 {
      ConditionsContents(t, n - 1);
      assert forall i :: 0 <= i < n - 1 ==> t[..n][i] == t[..n - 1][i];
      assert t[..n][n - 1] == t[n - 1];
    }
  }

  /** The conjunction of a topic filter's conditions says that its values agree with the event. */
  lemma ConditionsMean(t: seq<Segment>, e: Event)
    requires ValidTopic(t)
    ensures ConditionsHold(Conditions(t, |t|), e) <==> ValuesAgree(t, e.topics)
  {
    ConditionsContents(t, |t|);
    if ConditionsHold(Conditions(t, |t|), e) {
      forall i | 0 <= i < |t| && t[i].Exact?
        ensures i < |e.topics| && e.topics[i] == t[i].value
      {
        assert TopicCondition(i + 1, t[i].value) in Conditions(t, |t|);
      }
    }
  }

  predicate OpenTopics(f: Filter) {
    f.topics == [] || exists k :: 0 <= k < |f.topics| && OnlyWildcards(f.topics[k])
  }

  predicate AnyTopics(filters: seq<Filter>) {
    exists i :: 0 <= i < |filters| && OpenTopics(filters[i])
  }

  /** Some topic filter of some filter has values that agree with the event. */
  predicate SomeValuesAgree(filters: seq<Filter>, topics: seq<ScVal>) {
    exists i, k :: 0 <= i < |filters| && 0 <= k < |filters[i].topics| && ValuesAgree(filters[i].topics[k], topics)
  }

  /** The list holds the conditions of exactly these topic filters. */
  predicate ListsConditions(r: seq<seq<TopicCondition>>, filters: seq<Filter>) {
    && (forall p :: 0 <= p < |r| ==> r[p] != [] && FromFilter(r[p], filters))
    && (forall i, k :: 0 <= i < |filters| && 0 <= k < |filters[i].topics| ==>
          Conditions(filters[i].topics[k], |filters[i].topics[k]|) in r)
  }

  predicate FromFilter(c: seq<TopicCondition>, filters: seq<Filter>) {
    exists i, k :: 0 <= i < |filters| && 0 <= k < |filters[i].topics|
                 && c == Conditions(filters[i].topics[k], |filters[i].topics[k]|)
  }

  method TopicConditions(t: seq<Segment>) returns (conditions: seq<TopicCondition>)
    ensures conditions == Conditions(t, |t|)
  {
    conditions := [];
    for i := 0 to |t|
      invariant conditions == Conditions(t, i)
    {
      if t[i].Exact? {
        conditions := conditions + [TopicCondition(i + 1, t[i].value)];
      }
    }
  }

  /** combineTopics: no restriction as soon as a topic filter restricts nothing. */
  method CombineTopics(filters: seq<Filter>) returns (topics: seq<seq<TopicCondition>>)
    requires ValidFilters(filters)
    ensures AnyTopics(filters) || filters == [] ==> topics == []
    ensures !AnyTopics(filters) && filters != [] ==> topics != []
    ensures topics != [] ==> forall e: Event :: TopicsWhere(topics, e) <==> SomeValuesAgree(filters, e.topics)
  {
    topics := [];
    for i := 0 to |filters|
      invariant !AnyTopics(filters[..i])
      invariant ListsConditions(topics, filters[..i])
    {
      if |filters[i].topics| == 0 {
        assert OpenTopics(filters[i]);
        return [];
      }
      var ok, more := FilterConditions(filters[i]);
      if !ok {
        return [];
      }
      AppendConditions(topics, filters, i, more);
      topics := topics + more;
    }
    assert filters[..|filters|] == filters;
    if topics != [] {
      assert FromFilter(topics[0], filters);
    }
    if filters != [] {
      assert Conditions(filters[0].topics[0], |filters[0].topics[0]|) in topics;
    }
    forall e: Event
      ensures topics != [] ==> (TopicsWhere(topics, e) <==> SomeValuesAgree(filters, e.topics))
    {
      if topics != [] {
        ListMeans(topics, filters, e);
      }
    }
  }

  /** The conditions of one filter's topics, or not ok when one of them is all wildcards. */
  method FilterConditions(f: Filter) returns (ok: bool, more: seq<seq<TopicCondition>>)
    requires f.topics != []
    ensures ok <==> !OpenTopics(f)
    ensures ok ==> |more| == |f.topics|
    ensures ok ==> forall k :: 0 <= k < |more| ==> more[k] != [] && more[k] == Conditions(f.topics[k], |f.topics[k]|)
  {
    more := [];
    for k := 0 to |f.topics|
      invariant |more| == k
      invariant forall j :: 0 <= j < k ==> !OnlyWildcards(f.topics[j])
      invariant forall j :: 0 <= j < k ==> more[j] != [] && more[j] == Conditions(f.topics[j], |f.topics[j]|)
    {
      var conditions := TopicConditions(f.topics[k]);
      ConditionsContents(f.topics[k], |f.topics[k]|);
      assert f.topics[k][..|f.topics[k]|] == f.topics[k];
      if conditions == [] {
        return false, [];
      }
      more := more + [conditions];
    }
    ok := true;
  }

  lemma AppendConditions(r: seq<seq<TopicCondition>>, filters: seq<Filter>, i: nat, more: seq<seq<TopicCondition>>)
    requires i < |filters| && ListsConditions(r, filters[..i]) && !AnyTopics(filters[..i]) && !OpenTopics(filters[i])
    requires |more| == |filters[i].topics|
    requires forall k :: 0 <= k < |more| ==>
              more[k] != [] && more[k] == Conditions(filters[i].topics[k], |filters[i].topics[k]|)
    ensures ListsConditions(r + more, filters[..i + 1]) && !AnyTopics(filters[..i + 1])
  {
    hide Conditions, OpenTopics;
    var before, now := filters[..i], filters[..i + 1];
    assert forall j :: 0 <= j < i ==> now[j] == before[j];
    forall p | 0 <= p < |r + more|
      ensures (r + more)[p] != [] && FromFilter((r + more)[p], now)
    {
      if p < |r| {
        var j, k :| 0 <= j < |before| && 0 <= k < |before[j].topics|
                  && r[p] == Conditions(before[j].topics[k], |before[j].topics[k]|);
        assert r[p] == Conditions(now[j].topics[k], |now[j].topics[k]|);
      } else {
        assert more[p - |r|] == Conditions(now[i].topics[p - |r|], |now[i].topics[p - |r|]|);
      }
    }
    forall j, k | 0 <= j < |now| && 0 <= k < |now[j].topics|
      ensures Conditions(now[j].topics[k], |now[j].topics[k]|) in r + more
    {
      if j < i {
        assert Conditions(before[j].topics[k], |before[j].topics[k]|) in r;
      } else {
        assert more[k] in more;
      }
    }
  }

  lemma ListMeans(topics: seq<seq<TopicCondition>>, filters: seq<Filter>, e: Event)
    requires ValidFilters(filters) && ListsConditions(topics, filters) && topics != []
    ensures TopicsWhere(topics, e) <==> SomeValuesAgree(filters, e.topics)
  {
    hide Conditions, ConditionsHold, ValuesAgree, ValidTopic;
    if TopicsWhere(topics, e) {
      var c :| c in topics && ConditionsHold(c, e);
      var p :| 0 <= p < |topics| && topics[p] == c;
      assert FromFilter(c, filters);
      var i, k :| 0 <= i < |filters| && 0 <= k < |filters[i].topics|
                && c == Conditions(filters[i].topics[k], |filters[i].topics[k]|);
      ConditionsMean(filters[i].topics[k], e);
    }
    if SomeValuesAgree(filters, e.topics) {
      var i, k :| 0 <= i < |filters| && 0 <= k < |filters[i].topics| && ValuesAgree(filters[i].topics[k], e.topics);
      ConditionsMean(filters[i].topics[k], e);
      assert Conditions(filters[i].topics[k], |filters[i].topics[k]|) in topics;
    }
  }

  // ---------- pushing down loses nothing ----------

  /** What the combined lists mean; the three methods above establish it. */
  ghost predicate Combined(filters: seq<Filter>, ids: seq<ContractId>, types: seq<int>,
                           topics: seq<seq<TopicCondition>>) {
    && !ReportsMalformed(filters)
    && (if AnyContract(filters) then ids == [] else forall id :: id in ids <==> Named(filters, id))
    && (if AnyType(filters) then types == [] else forall x :: x in types <==> TypeNamed(filters, x))
    && (AnyTopics(filters) || filters == [] ==> topics == [])
    && (topics != [] ==> forall e: Event :: TopicsWhere(topics, e) <==> SomeValuesAgree(filters, e.topics))
  }

  lemma {:induction false} MatchingTopicsAgree(t: seq<Segment>, topics: seq<ScVal>)
    requires TopicMatches(t, topics)
    requires forall i :: 0 <= i < |t| && t[i].AnyRest? ==> i == |t| - 1
    ensures ValuesAgree(t, topics)
  {
    if t != [] && !t[0].AnyRest? {
      MatchingTopicsAgree(t[1..], topics[1..]);
      assert forall i :: 0 < i < |t| ==> t[i] == t[1..][i - 1];
    }
  }

  /** Every event that the request accepts passes the WHERE clause. */
  lemma PushdownKeepsMatches(filters: seq<Filter>, ids: seq<ContractId>, types: seq<int>,
                             topics: seq<seq<TopicCondition>>, e: Event)
    requires ValidFilters(filters) && Combined(filters, ids, types, topics) && Matches(filters, e)
    ensures Where(ids, types, topics, e)
  {
    hide TopicMatches, ValuesAgree, TopicsWhere;
    if filters == [] {
      FirstMember(ids);
      FirstMember(types);
      assert ids != [] ==> Named(filters, ids[0]);
      assert types != [] ==> TypeNamed(filters, types[0]);
      NoTopics(e);
    } else {
      var f :| f in filters && FilterMatches(f, e);
      var i :| 0 <= i < |filters| && filters[i] == f;
      assert ids != [] ==> f.contractIds != [];
      assert ids != [] ==> Named(filters, e.contractId.value);
      assert types != [] ==> f.types != {};
      assert types != [] ==> TypeNamed(filters, e.eventType);
      if topics == [] {
        NoTopics(e);
      } else {
        assert f.topics == [] ==> OpenTopics(filters[i]);
        var t :| t in f.topics && TopicMatches(t, e.topics);
        var k :| 0 <= k < |f.topics| && f.topics[k] == t;
        assert ValidTopic(filters[i].topics[k]);
        MatchingTopicsAgree(t, e.topics);
        assert ValuesAgree(filters[i].topics[k], e.topics);
        assert SomeValuesAgree(filters, e.topics);
      }
    }
  }

  lemma FirstMember<T>(s: seq<T>)
    ensures s != [] ==> s[0] in s
  {
  }

  lemma NoTopics(e: Event)
    ensures TopicsWhere([], e)
  {
  }
}
