/** The name filter that the list command (`cmd/listQueues.go`) hands to
    `ListQueuesWithAttributes`: the values of its repeatable `--queue-name`
    flag. The command's help text promises all queues when no name is
    given; the code passes the flag's slice by address, so the filter is
    never nil. Both readings are modelled. */
module ListQueuesCmd {
  import opened Outcomes
  import opened Sqs

  /** As written: the filter is always the (non-nil) list of flag values. */
  function ListAsWritten(svc: Service, queueNames: seq<string>): (r: Traced<Result<seq<QueueInfo>>>)
    ensures svc.queueUrls.Ok? && r.result.Ok? ==>
      Urls(r.result.value) == KeptUrls(svc.queueUrls.value, Some(queueNames), true)
  {
    ListQueuesWithAttributes(svc, Some(queueNames))
  }

  /** With no `--queue-name`, the command as written lists no queue at all,
      however many the service has. */
  lemma NoNameListsNothing(svc: Service)
    requires svc.queueUrls.Ok?
    ensures ListAsWritten(svc, []).result == Ok([])
  {
    EmptyNamesKeepNoQueue(svc.queueUrls.value, true);
    assert ListAsWritten(svc, []).result.Ok?;
  }

  /** What the help text describes: no name means no filter. */
  function ListIntended(svc: Service, queueNames: seq<string>): (r: Traced<Result<seq<QueueInfo>>>)
    ensures |queueNames| > 0 ==> r == ListAsWritten(svc, queueNames)
    ensures svc.queueUrls.Ok? && r.result.Ok? ==>
      Urls(r.result.value) ==
        (if |queueNames| == 0 then svc.queueUrls.value else KeptUrls(svc.queueUrls.value, Some(queueNames), true))
  {
    var names := if |queueNames| == 0 then None else Some(queueNames);
    NilNamesKeepEveryQueue(if svc.queueUrls.Ok? then svc.queueUrls.value else [], true);
    ListQueuesWithAttributes(svc, names)
  }

  /** With no `--queue-name`, the intended command lists every queue the
      service has, in listing order, once their lookups succeed. */
  lemma NoNameListsEveryQueue(svc: Service)
    requires svc.queueUrls.Ok?
    requires forall u | u in svc.queueUrls.value :: LookupsSucceed(svc, u)
    ensures ListIntended(svc, []).result.Ok?
    ensures Urls(ListIntended(svc, []).result.value) == svc.queueUrls.value
  {
    NilNamesKeepEveryQueue(svc.queueUrls.value, true);
  }
}
