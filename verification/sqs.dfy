/** The queue helper of `helper/sqs.go`: name matching, queue listing with
    optional attribute and tag lookups, deterministic message ids, and the
    construction of one batch request from a list of messages.

    The queue service is a `Service` value whose fields answer each remote
    operation; every operation here returns, beside its result, the log of
    remote calls it made, in order. */
module Sqs {
  import opened Outcomes
  import opened Strings
  import opened Json
  import Seqs
  import Hex
  import Bytes

  type Attributes = map<string, string>

  /** One listed queue; `tags` and `attributes` are `None` (Go's nil) unless
      they were looked up. */
  datatype QueueInfo = QueueInfo(
    name: string,
    url: string,
    tags: Option<Attributes>,
    attributes: Option<Attributes>)

  /** One entry of a send-message-batch request. */
  datatype Entry = Entry(id: string, body: string)

  /** A remote call to the queue service. */
  datatype Call =
    | ListQueuesCall
    | GetQueueAttributesCall(queueUrl: string)
    | ListQueueTagsCall(queueUrl: string)
    | GetQueueUrlCall(queueName: string)
    | SendMessageBatchCall(queueUrl: string, entries: seq<Entry>)

  /** How the queue service answers each call. */
  datatype Service = Service(
    queueUrls: Result<seq<string>>,
    attributesOf: string -> Result<Attributes>,
    tagsOf: string -> Result<Attributes>,
    urlOf: string -> Result<string>,
    sendBatch: (string, seq<Entry>) -> Outcome)

  /** A result together with the remote calls made to obtain it. */
  datatype Traced<+T> = Traced(result: T, calls: seq<Call>)

  // ---------------------------------------------------------------------
  // stringInSlice

  /** One element of the slice accepts `sub`: equal to it, or, when
      `partialMatch` is set, containing it ignoring case. */
  predicate Matches(b: string, sub: string, partialMatch: bool)
  {
    b == sub || (partialMatch && Contains(ToLower(b), ToLower(sub)))
  }

  /** The slice is scanned in order and the first accepting element ends it. */
  function StringInSlice(sub: string, list: seq<string>, partialMatch: bool): (found: bool)
    ensures found <==> exists i | 0 <= i < |list| :: Matches(list[i], sub, partialMatch)
  {
    if |list| == 0 then false
    else if Matches(list[0], sub, partialMatch) then true
    else
      assert forall i | 1 <= i < |list| :: list[i] == list[1..][i - 1];
      StringInSlice(sub, list[1..], partialMatch)
  }

  /** Without partial matching the test is membership; an empty slice
      accepts nothing. */
  lemma StringInSliceExact(sub: string, list: seq<string>, partialMatch: bool)
    ensures !partialMatch ==> (StringInSlice(sub, list, partialMatch) <==> sub in list)
    ensures |list| == 0 ==> !StringInSlice(sub, list, partialMatch)
  {
    if !partialMatch && sub in list {
      var i :| 0 <= i < |list| && list[i] == sub;
      assert Matches(list[i], sub, partialMatch);
    }
  }

  /** With partial matching the test is: some element, lowered, contains
      `sub` lowered. (Exact equality is subsumed.) */
  lemma PartialMatchContains(sub: string, list: seq<string>)
    ensures StringInSlice(sub, list, true) <==>
            exists i | 0 <= i < |list| :: Contains(ToLower(list[i]), ToLower(sub))
  {
    if StringInSlice(sub, list, true) {
      var i :| 0 <= i < |list| && Matches(list[i], sub, true);
      ContainsTrivially(ToLower(sub));
      assert Contains(ToLower(list[i]), ToLower(sub));
    }
  }

  lemma ExactMatchImpliesPartial(sub: string, list: seq<string>)
    requires StringInSlice(sub, list, false)
    ensures StringInSlice(sub, list, true)
  {
    var i :| 0 <= i < |list| && Matches(list[i], sub, false);
    assert Matches(list[i], sub, true);
  }

  /** Partial matching ignores the case of the searched name: asking for
      `sub` in lower case finds exactly what asking for `sub` finds. */
  lemma PartialMatchIgnoresCase(sub: string, list: seq<string>)
    ensures StringInSlice(ToLower(sub), list, true) <==> StringInSlice(sub, list, true)
  {
    ToLowerIdempotent(sub);
    PartialMatchContains(sub, list);
    PartialMatchContains(ToLower(sub), list);
  }

  /** The empty name is contained in every element, so it is accepted by any
      non-empty slice under partial matching. */
  lemma EmptySubMatchesAnyList(list: seq<string>)
    requires |list| > 0
    ensures StringInSlice("", list, true)
  {
    ContainsTrivially(ToLower(list[0]));
    assert Matches(list[0], "", true);
  }

  // ---------------------------------------------------------------------
  // Queue names

  /** The last `/`-separated piece of a queue URL: the part after its last
      slash, the whole URL when there is none, empty when it ends in one. */
  function QueueName(url: string): (name: string)
    ensures '/' !in name
    ensures |name| <= |url| && url[|url| - |name|..] == name
    ensures |name| < |url| ==> url[|url| - |name| - 1] == '/'
    ensures '/' !in url ==> name == url
    ensures |url| > 0 && url[|url| - 1] == '/' ==> name == ""
  {
    var parts := Seqs.Split(url, '/');
    var name := parts[|parts| - 1];
    assert url[|url| - |name|..] == name && (|name| < |url| ==> url[|url| - |name| - 1] == '/') by {
      if |parts| >= 2 {
        Seqs.JoinLast(parts, '/');
        var front := Seqs.Join(parts[..|parts| - 1], '/');
        assert url == front + ['/'] + name;
        assert url[|url| - |name| - 1] == '/';
      }
    }
    name
  }

  /** The three properties of `QueueName` pin it down: any slash-free suffix
      of the URL that is either the whole URL or preceded by a slash is it. */
  lemma QueueNameUnique(url: string, n: string)
    requires '/' !in n
    requires |n| <= |url| && url[|url| - |n|..] == n
    requires |n| < |url| ==> url[|url| - |n| - 1] == '/'
    ensures n == QueueName(url)
  {
    var q := QueueName(url);
  }

  // ---------------------------------------------------------------------
  // ListQueues

  /** Whether a queue of this name survives the name filter: every queue
      does when no names are given (a nil slice). */
  predicate Selected(name: string, names: Option<seq<string>>, partialMatch: bool)
  {
    names.None? || StringInSlice(name, names.value, partialMatch)
  }

  /** The name filter applied to one listed URL. */
  predicate Keep(url: string, names: Option<seq<string>>, partialMatch: bool)
  {
    Selected(QueueName(url), names, partialMatch)
  }

  /** The URLs the name filter keeps, in listing order. */
  function KeptUrls(urls: seq<string>, names: Option<seq<string>>, partialMatch: bool): seq<string>
  {
    if |urls| == 0 then []
    else (if Keep(urls[0], names, partialMatch) then [urls[0]] else []) + KeptUrls(urls[1..], names, partialMatch)
  }

  /** `KeptUrls` is the in-order filter of the listing by the name test. */
  lemma {:induction false} KeptUrlsIsFilter(urls: seq<string>, names: Option<seq<string>>, partialMatch: bool)
    ensures KeptUrls(urls, names, partialMatch) == Seqs.Filter(urls, u => Keep(u, names, partialMatch))
  {
    if |urls| > 0 {
      KeptUrlsIsFilter(urls[1..], names, partialMatch);
    }
  }

  function Urls(infos: seq<QueueInfo>): (urls: seq<string>)
    ensures |urls| == |infos|
  {
    if |infos| == 0 then [] else [infos[0].url] + Urls(infos[1..])
  }

  /** The description of one kept queue: without attributes just its name
      and URL; with them, its attributes and then its tags are looked up and
      the first failure ends the description. */
  function Describe(svc: Service, url: string, withAttributes: bool): (r: Traced<Result<QueueInfo>>)
    ensures !withAttributes ==> r == Traced(Ok(QueueInfo(QueueName(url), url, None, None)), [])
    ensures withAttributes ==>
      (r.result.Ok? <==> svc.attributesOf(url).Ok? && svc.tagsOf(url).Ok?)
    ensures withAttributes && r.result.Ok? ==>
      r.result.value == QueueInfo(QueueName(url), url,
                                  Some(svc.tagsOf(url).value), Some(svc.attributesOf(url).value))
    ensures withAttributes && svc.attributesOf(url).Err? ==>
      r == Traced(Err(svc.attributesOf(url).error), [GetQueueAttributesCall(url)])
    ensures withAttributes && svc.attributesOf(url).Ok? ==>
      r.calls == [GetQueueAttributesCall(url), ListQueueTagsCall(url)]
    ensures withAttributes && svc.attributesOf(url).Ok? && svc.tagsOf(url).Err? ==>
      r.result == Err(svc.tagsOf(url).error)
  {
    var info := QueueInfo(QueueName(url), url, None, None);
    if !withAttributes then Traced(Ok(info), [])
    else match svc.attributesOf(url)
      case Err(e) => Traced(Err(e), [GetQueueAttributesCall(url)])
      case Ok(attributes) =>
        var calls := [GetQueueAttributesCall(url), ListQueueTagsCall(url)];
        match svc.tagsOf(url)
        case Err(e) => Traced(Err(e), calls)
        case Ok(tags) => Traced(Ok(info.(attributes := Some(attributes), tags := Some(tags))), calls)
  }

  /** A lookup call about one queue. */
  predicate IsLookupOf(c: Call, url: string)
  {
    c == GetQueueAttributesCall(url) || c == ListQueueTagsCall(url)
  }

  /** Every lookup a queue needs succeeds. */
  predicate LookupsSucceed(svc: Service, url: string)
  {
    svc.attributesOf(url).Ok? && svc.tagsOf(url).Ok?
  }

  /** One turn of the loop over listed URLs: a queue the name filter drops
      leaves the rest of the listing as it is; a kept queue is described,
      and a failed description abandons the whole list. */
  function Extend(svc: Service, url: string, keep: bool, withAttributes: bool,
                  rest: Traced<Result<seq<QueueInfo>>>): (r: Traced<Result<seq<QueueInfo>>>)
    ensures r.result.Ok? ==>
      rest.result.Ok? && Urls(r.result.value) == (if keep then [url] else []) + Urls(rest.result.value)
    ensures !withAttributes && rest.result.Ok? && rest.calls == [] ==> r.result.Ok? && r.calls == []
    ensures !keep ==> r == rest
    ensures keep && Describe(svc, url, withAttributes).result.Err? ==>
      r == Traced(Err(Describe(svc, url, withAttributes).result.error), Describe(svc, url, withAttributes).calls)
    ensures keep && Describe(svc, url, withAttributes).result.Ok? ==>
      r.calls == Describe(svc, url, withAttributes).calls + rest.calls
  {
    if !keep then rest
    else
      var head := Describe(svc, url, withAttributes);
      match head.result
      case Err(e) => Traced(Err(e), head.calls)
      case Ok(info) =>
        var result := if rest.result.Ok? then Ok([info] + rest.result.value) else rest.result;
        assert result.Ok? ==> ([info] + rest.result.value)[1..] == rest.result.value;
        Traced(result, head.calls + rest.calls)
  }

  /** The loop over listed URLs: kept queues are described in order and the
      first failed description abandons the whole list. */
  function ListFrom(svc: Service, urls: seq<string>, names: Option<seq<string>>,
                    withAttributes: bool, partialMatch: bool): (r: Traced<Result<seq<QueueInfo>>>)
    ensures r.result.Ok? ==> Urls(r.result.value) == KeptUrls(urls, names, partialMatch)
    ensures !withAttributes ==> r.result.Ok? && r.calls == []
  {
    if |urls| == 0 then Traced(Ok([]), [])
    else Extend(svc, urls[0], Keep(urls[0], names, partialMatch), withAttributes,
                ListFrom(svc, urls[1..], names, withAttributes, partialMatch))
  }

  /** What a listed queue holds: its derived name, and its attributes and
      tags exactly when they were asked for, as the service reported them. */
  predicate Described(svc: Service, q: QueueInfo, withAttributes: bool)
  {
    && q.name == QueueName(q.url)
    && (!withAttributes ==> q.tags.None? && q.attributes.None?)
    && (withAttributes ==>
          && q.attributes.Some? && q.tags.Some?
          && svc.attributesOf(q.url) == Ok(q.attributes.value)
          && svc.tagsOf(q.url) == Ok(q.tags.value))
  }

  /** Every queue a successful listing returns is `Described`. */
  predicate AllDescribed(svc: Service, r: Traced<Result<seq<QueueInfo>>>, withAttributes: bool)
  {
    r.result.Ok? ==> forall i | 0 <= i < |r.result.value| :: Described(svc, r.result.value[i], withAttributes)
  }

  lemma ExtendInfos(svc: Service, url: string, keep: bool, withAttributes: bool,
                    rest: Traced<Result<seq<QueueInfo>>>)
    requires AllDescribed(svc, rest, withAttributes)
    ensures AllDescribed(svc, Extend(svc, url, keep, withAttributes, rest), withAttributes)
  {
    var r := Extend(svc, url, keep, withAttributes, rest);
    if keep && r.result.Ok? {
      var head := Describe(svc, url, withAttributes);
      assert head.result.Ok? && rest.result.Ok?;
      var v := r.result.value;
      assert v == [head.result.value] + rest.result.value;
      DescribeDescribed(svc, url, withAttributes);
      forall i | 0 <= i < |v| ensures Described(svc, v[i], withAttributes) {
        if i > 0 {
          assert v[i] == rest.result.value[i - 1];
        }
      }
    }
  }

  /** A successful description is `Described`. */
  lemma DescribeDescribed(svc: Service, url: string, withAttributes: bool)
    requires Describe(svc, url, withAttributes).result.Ok?
    ensures Described(svc, Describe(svc, url, withAttributes).result.value, withAttributes)
  {
  }

  /** Every returned queue has its derived name, and its attributes and tags
      exactly when asked for, equal to the service's answers. */
  lemma {:induction false} ListFromInfos(svc: Service, urls: seq<string>, names: Option<seq<string>>,
                                         withAttributes: bool, partialMatch: bool)
    ensures AllDescribed(svc, ListFrom(svc, urls, names, withAttributes, partialMatch), withAttributes)
  {
    if |urls| > 0 {
      ListFromInfos(svc, urls[1..], names, withAttributes, partialMatch);
      ExtendInfos(svc, urls[0], Keep(urls[0], names, partialMatch), withAttributes,
                  ListFrom(svc, urls[1..], names, withAttributes, partialMatch));
    }
  }

  /** A listing over `kept` succeeds exactly when every lookup of a queue
      in `kept` succeeds. */
  predicate SucceedsIff(svc: Service, kept: seq<string>, r: Traced<Result<seq<QueueInfo>>>)
  {
    r.result.Ok? <==> forall u | u in kept :: LookupsSucceed(svc, u)
  }

  lemma ExtendSucceeds(svc: Service, url: string, keep: bool, rest: Traced<Result<seq<QueueInfo>>>,
                       keptRest: seq<string>)
    requires SucceedsIff(svc, keptRest, rest)
    ensures SucceedsIff(svc, (if keep then [url] else []) + keptRest, Extend(svc, url, keep, true, rest))
  {
    if keep {
      assert Describe(svc, url, true).result.Ok? <==> LookupsSucceed(svc, url);
      assert (forall u | u in [url] + keptRest :: LookupsSucceed(svc, u)) <==>
             LookupsSucceed(svc, url) && forall u | u in keptRest :: LookupsSucceed(svc, u);
    } else {
      assert [] + keptRest == keptRest;
    }
  }

  /** With lookups, the listing succeeds exactly when every kept queue's
      attribute and tag lookups succeed. */
  lemma {:induction false} ListFromSucceeds(svc: Service, urls: seq<string>, names: Option<seq<string>>,
                                            partialMatch: bool)
    ensures SucceedsIff(svc, KeptUrls(urls, names, partialMatch), ListFrom(svc, urls, names, true, partialMatch))
  {
    if |urls| > 0 {
      ListFromSucceeds(svc, urls[1..], names, partialMatch);
      ExtendSucceeds(svc, urls[0], Keep(urls[0], names, partialMatch),
                     ListFrom(svc, urls[1..], names, true, partialMatch), KeptUrls(urls[1..], names, partialMatch));
    }
  }

  /** Every call is a lookup of some queue in `kept`. */
  predicate CallsAreLookups(calls: seq<Call>, kept: seq<string>)
  {
    forall c | c in calls :: exists u | u in kept :: IsLookupOf(c, u)
  }

  lemma ExtendCalls(svc: Service, url: string, keep: bool, withAttributes: bool,
                    rest: Traced<Result<seq<QueueInfo>>>, keptRest: seq<string>)
    requires CallsAreLookups(rest.calls, keptRest)
    ensures CallsAreLookups(Extend(svc, url, keep, withAttributes, rest).calls, (if keep then [url] else []) + keptRest)
  {
    if keep {
      var head := Describe(svc, url, withAttributes);
      var kept := [url] + keptRest;
      var calls := Extend(svc, url, keep, withAttributes, rest).calls;
      assert calls == head.calls || calls == head.calls + rest.calls;
      forall c | c in calls ensures exists u | u in kept :: IsLookupOf(c, u) {
        if c in head.calls {
          assert IsLookupOf(c, url) && url in kept;
        } else {
          var u :| u in keptRest && IsLookupOf(c, u);
          assert u in kept;
        }
      }
    } else {
      assert [] + keptRest == keptRest;
    }
  }

  /** The only remote calls are attribute and tag lookups of kept queues. */
  lemma {:induction false} ListFromCalls(svc: Service, urls: seq<string>, names: Option<seq<string>>,
                                         withAttributes: bool, partialMatch: bool)
    ensures CallsAreLookups(ListFrom(svc, urls, names, withAttributes, partialMatch).calls,
                            KeptUrls(urls, names, partialMatch))
  {
    if |urls| > 0 {
      ListFromCalls(svc, urls[1..], names, withAttributes, partialMatch);
      ExtendCalls(svc, urls[0], Keep(urls[0], names, partialMatch), withAttributes,
                  ListFrom(svc, urls[1..], names, withAttributes, partialMatch), KeptUrls(urls[1..], names, partialMatch));
    }
  }

  /** The position of the first queue whose lookups fail, or the length
      when every lookup succeeds. */
  function FirstFailing(svc: Service, urls: seq<string>): (k: nat)
    ensures k <= |urls|
    ensures forall j | 0 <= j < k :: LookupsSucceed(svc, urls[j])
    ensures k < |urls| ==> !LookupsSucceed(svc, urls[k])
  {
    if |urls| == 0 || !LookupsSucceed(svc, urls[0]) then 0
    else 1 + FirstFailing(svc, urls[1..])
  }

  /** The calls made by describing each queue in turn, with lookups. */
  function LookupCalls(svc: Service, urls: seq<string>): seq<Call>
  {
    if |urls| == 0 then [] else Describe(svc, urls[0], true).calls + LookupCalls(svc, urls[1..])
  }

  /** A successful loop over `kept` looked up every queue in it, in order,
      and none of the lookups failed. */
  predicate LookedUpAll(svc: Service, kept: seq<string>, r: Traced<Result<seq<QueueInfo>>>)
  {
    r.result.Ok? ==> FirstFailing(svc, kept) == |kept| && r.calls == LookupCalls(svc, kept)
  }

  lemma ExtendAllLookups(svc: Service, url: string, keep: bool, rest: Traced<Result<seq<QueueInfo>>>,
                         keptRest: seq<string>)
    requires LookedUpAll(svc, keptRest, rest)
    ensures LookedUpAll(svc, (if keep then [url] else []) + keptRest, Extend(svc, url, keep, true, rest))
  {
    if keep {
      assert ([url] + keptRest)[1..] == keptRest;
    } else {
      assert [] + keptRest == keptRest;
    }
  }

  /** A successful listing with lookups made the lookups of every kept
      queue, in listing order. */
  lemma {:induction false} ListFromAllLookups(svc: Service, urls: seq<string>, names: Option<seq<string>>,
                                              partialMatch: bool)
    ensures LookedUpAll(svc, KeptUrls(urls, names, partialMatch), ListFrom(svc, urls, names, true, partialMatch))
  {
    if |urls| > 0 {
      ListFromAllLookups(svc, urls[1..], names, partialMatch);
      ExtendAllLookups(svc, urls[0], Keep(urls[0], names, partialMatch),
                       ListFrom(svc, urls[1..], names, true, partialMatch), KeptUrls(urls[1..], names, partialMatch));
    }
  }

  /** A failed loop over `kept` stopped at the first queue whose lookups
      fail: its error is the result, and the calls are the lookups of the
      queues up to and including that one. */
  predicate StopsAtFirstFailure(svc: Service, kept: seq<string>, r: Traced<Result<seq<QueueInfo>>>)
  {
    var k := FirstFailing(svc, kept);
    r.result.Err? ==>
      && k < |kept|
      && r.result.error == Describe(svc, kept[k], true).result.error
      && r.calls == LookupCalls(svc, kept[..k + 1])
  }

  lemma ExtendFirstFailure(svc: Service, url: string, keep: bool, rest: Traced<Result<seq<QueueInfo>>>,
                           keptRest: seq<string>)
    requires StopsAtFirstFailure(svc, keptRest, rest)
    ensures StopsAtFirstFailure(svc, (if keep then [url] else []) + keptRest, Extend(svc, url, keep, true, rest))
  {
    var r := Extend(svc, url, keep, true, rest);
    if !keep {
      assert [] + keptRest == keptRest;
    } else if r.result.Err? {
      var head := Describe(svc, url, true);
      var kept := [url] + keptRest;
      if head.result.Err? {
        assert r == Traced(Err(head.result.error), head.calls);
        FirstFailureAtHead(svc, url, keptRest);
        assert kept[0] == url;
      } else {
        assert rest.result.Err? && r == Traced(rest.result, head.calls + rest.calls);
        var k := FirstFailing(svc, keptRest);
        FirstFailureInTail(svc, url, keptRest);
        assert kept[k + 1] == keptRest[k];
      }
    }
  }

  /** With lookups, a failed listing is the first failed description. */
  lemma {:induction false} ListFromFirstFailure(svc: Service, urls: seq<string>, names: Option<seq<string>>,
                                                partialMatch: bool)
    ensures StopsAtFirstFailure(svc, KeptUrls(urls, names, partialMatch), ListFrom(svc, urls, names, true, partialMatch))
  {
    if |urls| > 0 {
      ListFromFirstFailure(svc, urls[1..], names, partialMatch);
      ExtendFirstFailure(svc, urls[0], Keep(urls[0], names, partialMatch),
                         ListFrom(svc, urls[1..], names, true, partialMatch), KeptUrls(urls[1..], names, partialMatch));
    }
  }

  lemma FirstFailureAtHead(svc: Service, url: string, rest: seq<string>)
    requires !LookupsSucceed(svc, url)
    ensures FirstFailing(svc, [url] + rest) == 0
    ensures LookupCalls(svc, ([url] + rest)[..1]) == Describe(svc, url, true).calls
  {
    assert ([url] + rest)[..1] == [url];
    assert [url][1..] == [];
  }

  lemma FirstFailureInTail(svc: Service, url: string, rest: seq<string>)
    requires LookupsSucceed(svc, url)
    requires FirstFailing(svc, rest) < |rest|
    ensures FirstFailing(svc, [url] + rest) == FirstFailing(svc, rest) + 1
    ensures LookupCalls(svc, ([url] + rest)[..FirstFailing(svc, rest) + 2]) ==
      Describe(svc, url, true).calls + LookupCalls(svc, rest[..FirstFailing(svc, rest) + 1])
  {
    FirstFailingCons(svc, url, rest);
    var k := FirstFailing(svc, rest);
    var t := ([url] + rest)[..k + 2];
    assert t[0] == url;
    assert forall i | 0 <= i < k + 1 :: t[1..][i] == rest[..k + 1][i];
    assert t[1..] == rest[..k + 1];
    LookupCallsHead(svc, t);
  }

  lemma LookupCallsHead(svc: Service, urls: seq<string>)
    requires |urls| > 0
    ensures LookupCalls(svc, urls) == Describe(svc, urls[0], true).calls + LookupCalls(svc, urls[1..])
  {
  }

  lemma FirstFailingCons(svc: Service, url: string, rest: seq<string>)
    requires LookupsSucceed(svc, url)
    ensures FirstFailing(svc, [url] + rest) == FirstFailing(svc, rest) + 1
  {
    assert ([url] + rest)[1..] == rest;
  }

  /** `ListQueues`: one listing call, then the kept queues in listing order;
      a failed listing returns no queues. */
  function ListQueues(svc: Service, names: Option<seq<string>>,
                      withAttributes: bool, partialMatch: bool): (r: Traced<Result<seq<QueueInfo>>>)
    ensures |r.calls| >= 1 && r.calls[0] == ListQueuesCall
    ensures svc.queueUrls.Err? ==> r == Traced(Err(svc.queueUrls.error), [ListQueuesCall])
    ensures svc.queueUrls.Ok? && r.result.Ok? ==>
      Urls(r.result.value) == KeptUrls(svc.queueUrls.value, names, partialMatch)
    ensures svc.queueUrls.Ok? && !withAttributes ==> r.result.Ok? && r.calls == [ListQueuesCall]
    ensures svc.queueUrls.Ok? && withAttributes ==>
      (r.result.Ok? <==>
       forall u | u in KeptUrls(svc.queueUrls.value, names, partialMatch) :: LookupsSucceed(svc, u))
    ensures r.result.Ok? ==> forall i | 0 <= i < |r.result.value| ::
      Described(svc, r.result.value[i], withAttributes)
    ensures svc.queueUrls.Ok? ==> forall c | c in r.calls[1..] ::
      exists u | u in KeptUrls(svc.queueUrls.value, names, partialMatch) :: IsLookupOf(c, u)
  {
    match svc.queueUrls
    case Err(e) => Traced(Err(e), [ListQueuesCall])
    case Ok(urls) =>
      var listed := ListFrom(svc, urls, names, withAttributes, partialMatch);
      ListFromInfos(svc, urls, names, withAttributes, partialMatch);
      ListFromSucceeds(svc, urls, names, partialMatch);
      ListFromCalls(svc, urls, names, withAttributes, partialMatch);
      assert listed.result.Ok? ==> forall i | 0 <= i < |listed.result.value| ::
        Described(svc, listed.result.value[i], withAttributes);
      assert ([ListQueuesCall] + listed.calls)[1..] == listed.calls;
      Traced(listed.result, [ListQueuesCall] + listed.calls)
  }

  /** A nil name list keeps every listed queue. */
  lemma {:induction false} NilNamesKeepEveryQueue(urls: seq<string>, partialMatch: bool)
    ensures KeptUrls(urls, None, partialMatch) == urls
  {
    KeptUrlsIsFilter(urls, None, partialMatch);
    Seqs.FilterKeepsAll(urls, u => Keep(u, None, partialMatch));
  }

  /** A non-nil but empty name list keeps none. */
  lemma {:induction false} EmptyNamesKeepNoQueue(urls: seq<string>, partialMatch: bool)
    ensures KeptUrls(urls, Some([]), partialMatch) == []
  {
    forall i | 0 <= i < |urls|
      ensures !Keep(urls[i], Some([]), partialMatch)
    {
      StringInSliceExact(QueueName(urls[i]), [], partialMatch);
    }
    KeptUrlsIsFilter(urls, Some([]), partialMatch);
    Seqs.FilterKeepsNone(urls, u => Keep(u, Some([]), partialMatch));
  }

  /** `ListQueuesWithAttributes`: partial, case-insensitive name matching, and
      every returned queue carries its looked-up attributes and tags. */
  function ListQueuesWithAttributes(svc: Service, names: Option<seq<string>>): (r: Traced<Result<seq<QueueInfo>>>)
    ensures r == ListQueues(svc, names, true, true)
    ensures svc.queueUrls.Ok? && r.result.Ok? ==>
      Urls(r.result.value) == KeptUrls(svc.queueUrls.value, names, true)
    ensures r.result.Ok? ==> forall i | 0 <= i < |r.result.value| ::
      r.result.value[i].attributes.Some? && r.result.value[i].tags.Some?
  {
    ListQueues(svc, names, true, true)
  }

  // ---------------------------------------------------------------------
  // Message ids and batch entries

  /** The 16 bytes of a UUID. */
  type Uuid = b: seq<Bytes.byte> | |b| == 16 witness seq(16, _ => 0)

  /** `uuidv5`: the hex form, without hyphens, of the name-based SHA-1 UUID
      of `data` in the URL namespace. The hashing itself is `nameUuid`. */
  function Uuidv5(nameUuid: string -> Uuid, data: string): (id: string)
    ensures |id| == 32
    ensures forall i | 0 <= i < |id| :: Hex.IsLowerHexDigit(id[i])
    ensures Hex.DecodeString(id) == Some(nameUuid(data))
  {
    Hex.DecodeEncode(nameUuid(data));
    Hex.EncodeToString(nameUuid(data))
  }

  /** Two ids agree exactly when the underlying UUIDs do. */
  lemma Uuidv5Injective(nameUuid: string -> Uuid, a: string, b: string)
    ensures Uuidv5(nameUuid, a) == Uuidv5(nameUuid, b) <==> nameUuid(a) == nameUuid(b)
  {
    if Uuidv5(nameUuid, a) == Uuidv5(nameUuid, b) {
      Hex.EncodeInjective(nameUuid(a), nameUuid(b));
    }
  }

  /** One entry per message, in order: the body is the serialized message
      and the id is derived from the body. */
  function Entries(messages: seq<Message>, marshal: Message -> string,
                   nameUuid: string -> Uuid): (entries: seq<Entry>)
    ensures |entries| == |messages|
    ensures forall i | 0 <= i < |messages| ::
      entries[i].body == marshal(messages[i]) && entries[i].id == Uuidv5(nameUuid, entries[i].body)
  {
    if |messages| == 0 then []
    else
      var body := marshal(messages[0]);
      [Entry(Uuidv5(nameUuid, body), body)] + Entries(messages[1..], marshal, nameUuid)
  }

  /** Entries with equal bodies share an id, and entries with equal ids have
      the same name-based UUID. */
  lemma EntryIdsAgree(messages: seq<Message>, marshal: Message -> string,
                      nameUuid: string -> Uuid, i: int, j: int)
    requires 0 <= i < |messages| && 0 <= j < |messages|
    ensures var e := Entries(messages, marshal, nameUuid);
      (e[i].body == e[j].body ==> e[i].id == e[j].id) &&
      (e[i].id == e[j].id <==> nameUuid(e[i].body) == nameUuid(e[j].body))
  {
    var e := Entries(messages, marshal, nameUuid);
    Uuidv5Injective(nameUuid, e[i].body, e[j].body);
  }

  /** `SendMessages`: nothing happens for no messages; otherwise exactly one
      batch call carries one entry per message, and its outcome is the
      outcome of the whole send. */
  function SendMessages(svc: Service, queueUrl: string, messages: seq<Message>,
                        marshal: Message -> string, nameUuid: string -> Uuid): (r: Traced<Outcome>)
    ensures |messages| == 0 ==> r == Traced(Pass, [])
    ensures |messages| > 0 ==>
      |r.calls| == 1 && r.calls[0].SendMessageBatchCall? && r.calls[0].queueUrl == queueUrl &&
      r.result == svc.sendBatch(queueUrl, r.calls[0].entries)
    ensures |messages| > 0 ==>
      var entries := r.calls[0].entries;
      |entries| == |messages| &&
      forall i | 0 <= i < |messages| ::
        entries[i].body == marshal(messages[i]) && entries[i].id == Uuidv5(nameUuid, marshal(messages[i]))
  {
    if |messages| == 0 then Traced(Pass, [])
    else
      var entries := Entries(messages, marshal, nameUuid);
      Traced(svc.sendBatch(queueUrl, entries), [SendMessageBatchCall(queueUrl, entries)])
  }
}
