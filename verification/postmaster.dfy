/** The push-message queues of `postmaster.js`: requests are checked,
    their priority is clamped into 0..2, priority 2 is sent at once and
    priorities 0 and 1 wait in their queue; the periodic low and medium
    drains send up to 10 and 21 items from the tail of each queue. Sending
    itself (web push) is not modelled: a drain returns what it would send,
    in order. */
module Postmaster {
  import opened Wrappers

  /** A queued item: a notification or an update, with its recipients. */
  datatype Item =
    | Notification(title: string, message: string, list: seq<string>)
    | Update(data: string, updateId: string, updateName: string, list: seq<string>)

  /** The two notification queues and the two update queues (priorities 0 and 1). */
  datatype Queues = Queues(notifications: seq<seq<Item>>, updates: seq<seq<Item>>)

  const Empty := Queues([[], []], [[], []])

  predicate WellShaped(q: Queues) {
    |q.notifications| == 2 && |q.updates| == 2
  }

  /** The `list` argument: falsy, one recipient, or an array (even an empty
      array is truthy). */
  datatype ListArg = Falsy | Single(recipient: string) | Many(recipients: seq<string>)

  /** The request; a missing or empty string is falsy. A priority of `None`
      is a value for which `Math.min` gives `NaN`. */
  datatype Request = Request(isNotification: bool, title: Option<string>, message: Option<string>,
                             data: Option<string>, updateId: Option<string>, updateName: Option<string>,
                             p: Option<real>)

  datatype PostError =
    | ListRequired | TitleRequired | MessageRequired | DataRequired | UpdateIdRequired | UpdateNameRequired
    | NoSuchQueue   // `queue[p].push` on an index that is not 0 or 1 (a TypeError)

  predicate Truthy(x: Option<string>) { x.Some? && |x.value| > 0 }

  /** `Math.max(0, Math.min(p, 2))`; `NaN` stays `NaN`. */
  function Clamp(p: Option<real>): (c: Option<real>)
    ensures c.Some? <==> p.Some?
    ensures c.Some? ==> 0.0 <= c.value <= 2.0
    ensures p.Some? && 0.0 <= p.value <= 2.0 ==> c == p
  {
    match p
    case None => None
    case Some(x) => Some(if x < 0.0 then 0.0 else if x > 2.0 then 2.0 else x)
  }

  /** What a successful `postmaster` call does: the queues afterwards and the
      item sent at once, if any. */
  datatype Posted = Posted(queues: Queues, sentNow: Option<Item>)

  /** `addToNotificationQueue` / `addToUpdateQueue` with a clamped priority. */
  function Enqueue(q: Queues, item: Item, p: Option<real>): (r: Result<Posted, PostError>)
    requires WellShaped(q)
    ensures r.Ok? ==> WellShaped(r.value.queues)
  {
    if p == Some(2.0) then Ok(Posted(q, Some(item)))
    else if p == Some(0.0) || p == Some(1.0) then
      var k := if p == Some(0.0) then 0 else 1;
      if item.Notification? then Ok(Posted(q.(notifications := q.notifications[k := q.notifications[k] + [item]]), None))
      else Ok(Posted(q.(updates := q.updates[k := q.updates[k] + [item]]), None))
    else Err(NoSuchQueue)
  }

  /** The fields `postmaster` insists on are present and truthy. */
  predicate Complete(req: Request) {
    if req.isNotification then Truthy(req.title) && Truthy(req.message)
    else Truthy(req.data) && Truthy(req.updateId) && Truthy(req.updateName)
  }

  /** The item a complete request carries. */
  function ItemOf(req: Request, list: ListArg): Item
    requires !list.Falsy? && Complete(req)
  {
    var recipients := if list.Single? then [list.recipient] else list.recipients;
    if req.isNotification then Notification(req.title.value, req.message.value, recipients)
    else Update(req.data.value, req.updateId.value, req.updateName.value, recipients)
  }

  /** `postmaster(request, list)`. A falsy list or a missing field is refused
      before anything changes. Otherwise a priority of 2 or more is sent at
      once and leaves the queues alone; 0 or less joins the end of queue 0,
      exactly 1 the end of queue 1, and any other priority (fractional or
      `NaN`) fails on a missing queue. The other three queues never change. */
  function Post(q: Queues, req: Request, list: ListArg): (r: Result<Posted, PostError>)
    requires WellShaped(q)
    ensures r.Ok? ==> WellShaped(r.value.queues)
    ensures list.Falsy? <==> r == Err(ListRequired)
    ensures !list.Falsy? && !Complete(req) ==>
              r.Err? && r.error in (if req.isNotification then {TitleRequired, MessageRequired}
                                    else {DataRequired, UpdateIdRequired, UpdateNameRequired})
    ensures !list.Falsy? && req.isNotification && !Truthy(req.title) ==> r == Err(TitleRequired)
    ensures !list.Falsy? && req.isNotification && Truthy(req.title) && !Truthy(req.message) ==>
              r == Err(MessageRequired)
    ensures !list.Falsy? && !req.isNotification && !Truthy(req.data) ==> r == Err(DataRequired)
    ensures !list.Falsy? && !req.isNotification && Truthy(req.data) && !Truthy(req.updateId) ==>
              r == Err(UpdateIdRequired)
    ensures !list.Falsy? && !req.isNotification && Truthy(req.data) && Truthy(req.updateId) && !Truthy(req.updateName) ==>
              r == Err(UpdateNameRequired)
    ensures !list.Falsy? && Complete(req) ==>
              var item := ItemOf(req, list);
              && (req.p.Some? && req.p.value >= 2.0 ==> r == Ok(Posted(q, Some(item))))
              && (req.p.Some? && (req.p.value <= 0.0 || req.p.value == 1.0) ==>
                    var k := if req.p.value <= 0.0 then 0 else 1;
                    r.Ok? && r.value.sentNow.None? &&
                    (if item.Notification?
                     then r.value.queues == q.(notifications := q.notifications[k := q.notifications[k] + [item]])
                     else r.value.queues == q.(updates := q.updates[k := q.updates[k] + [item]])))
              && (req.p.None? || (0.0 < req.p.value < 2.0 && req.p.value != 1.0) ==> r == Err(NoSuchQueue))
  {
    if list.Falsy? then Err(ListRequired)
    else
      var recipients := if list.Single? then [list.recipient] else list.recipients;
      if req.isNotification then
        if !Truthy(req.title) then Err(TitleRequired)
        else if !Truthy(req.message) then Err(MessageRequired)
        else Enqueue(q, Notification(req.title.value, req.message.value, recipients), Clamp(req.p))
      else
        if !Truthy(req.data) then Err(DataRequired)
        else if !Truthy(req.updateId) then Err(UpdateIdRequired)
        else if !Truthy(req.updateName) then Err(UpdateNameRequired)
        else Enqueue(q, Update(req.data.value, req.updateId.value, req.updateName.value, recipients), Clamp(req.p))
  }

  /** The fields `postmaster` checks, in the order it checks them, each
      with the error it throws when the field is falsy. */
  function Checked(req: Request): (fs: seq<(PostError, Option<string>)>)
    ensures req.isNotification ==> |fs| == 2
    ensures !req.isNotification ==> |fs| == 3
  {
    if req.isNotification then [(TitleRequired, req.title), (MessageRequired, req.message)]
    else [(DataRequired, req.data), (UpdateIdRequired, req.updateId), (UpdateNameRequired, req.updateName)]
  }

  /** A request is complete exactly when every checked field is truthy, and
      an incomplete one is refused with the error of the first falsy field
      in checking order. */
  lemma PostReportsFirstMissing(q: Queues, req: Request, list: ListArg)
    requires WellShaped(q) && !list.Falsy?
    ensures Complete(req) <==> forall i :: 0 <= i < |Checked(req)| ==> Truthy(Checked(req)[i].1)
    ensures !Complete(req) ==>
              exists i :: 0 <= i < |Checked(req)| && !Truthy(Checked(req)[i].1) &&
                          (forall j :: 0 <= j < i ==> Truthy(Checked(req)[j].1)) &&
                          Post(q, req, list) == Err(Checked(req)[i].0)
  {
    var fs := Checked(req);
    if !Complete(req) {
      if !Truthy(fs[0].1) {
        assert Post(q, req, list) == Err(fs[0].0);
      } else if !Truthy(fs[1].1) {
        assert Post(q, req, list) == Err(fs[1].0);
      } else {
        assert Post(q, req, list) == Err(fs[2].0);
      }
    }
  }

  // ---------------------------------------------------------------------
  // Draining
  // ---------------------------------------------------------------------

  function Reverse<T>(s: seq<T>): (r: seq<T>)
    ensures |r| == |s|
    ensures forall i :: 0 <= i < |s| ==> r[i] == s[|s| - 1 - i]
  {
    if |s| == 0 then [] else [s[|s| - 1]] + Reverse(s[..|s| - 1])
  }

  /** One drain loop: `to = Math.min(queue.length - 1, limit - 1)`, then pop
      and send until the queue is empty or the `to`-th item has been sent.
      Items are objects, so a pop yields a falsy value only on an empty
      queue. */
  method DrainTail(queue: seq<Item>, limit: nat) returns (sent: seq<Item>, rest: seq<Item>)
    requires limit > 0
    ensures |sent| == if |queue| < limit then |queue| else limit
    ensures rest == queue[..|queue| - |sent|]
    ensures sent == Reverse(queue[|rest|..])
    ensures rest + Reverse(sent) == queue
  {
    var to := if |queue| - 1 < limit - 1 then |queue| - 1 else limit - 1;
    var i := 0;
    sent := [];
    rest := queue;
    while |rest| > 0
      invariant |rest| + |sent| == |queue| && rest == queue[..|rest|]
      invariant i == |sent| && (|queue| > 0 ==> i <= to)
      invariant forall j :: 0 <= j < |sent| ==> sent[j] == queue[|queue| - 1 - j]
      decreases |rest|
    {
      var nf := rest[|rest| - 1];
      rest := rest[..|rest| - 1];
      sent := sent + [nf];
      if i == to {
        break;
      }
      i := i + 1;
    }
    TailReversed(queue, rest, sent);
  }

  /** Items popped one by one from the end of `queue`, leaving the prefix
      `rest`, are the remaining suffix reversed. */
  lemma TailReversed(queue: seq<Item>, rest: seq<Item>, sent: seq<Item>)
    requires |rest| + |sent| == |queue| && rest == queue[..|rest|]
    requires forall j :: 0 <= j < |sent| ==> sent[j] == queue[|queue| - 1 - j]
    ensures sent == Reverse(queue[|rest|..])
    ensures rest + Reverse(sent) == queue
  {
    assert Reverse(sent) == queue[|rest|..];
    assert rest + queue[|rest|..] == queue;
  }

  /** `executeLowPriority` (limit 10) and `executeMediumPriority` (limit 21)
      on queue `k`: notifications first, then updates. */
  method Drain(q: Queues, k: nat, limit: nat) returns (q': Queues, sent: seq<Item>)
    requires WellShaped(q) && k < 2 && limit > 0
    ensures WellShaped(q')
    ensures q'.notifications[1 - k] == q.notifications[1 - k] && q'.updates[1 - k] == q.updates[1 - k]
    ensures var n := q.notifications[k]; var u := q.updates[k];
            var sn := if |n| < limit then |n| else limit;
            var su := if |u| < limit then |u| else limit;
            && q'.notifications[k] == n[..|n| - sn]
            && q'.updates[k] == u[..|u| - su]
            && sent == Reverse(n[|n| - sn..]) + Reverse(u[|u| - su..])
  {
    var sentN, restN := DrainTail(q.notifications[k], limit);
    var sentU, restU := DrainTail(q.updates[k], limit);
    q' := Queues(q.notifications[k := restN], q.updates[k := restU]);
    sent := sentN + sentU;
  }

  method ExecuteLowPriority(q: Queues) returns (q': Queues, sent: seq<Item>)
    requires WellShaped(q)
    ensures WellShaped(q') && q'.notifications[1] == q.notifications[1] && q'.updates[1] == q.updates[1]
    ensures |sent| <= 20
    ensures var n := q.notifications[0]; |n| <= 10 ==> q'.notifications[0] == []
    ensures var n := q.notifications[0]; |n| > 10 ==> q'.notifications[0] == n[..|n| - 10]
  {
    q', sent := Drain(q, 0, 10);
  }

  method ExecuteMediumPriority(q: Queues) returns (q': Queues, sent: seq<Item>)
    requires WellShaped(q)
    ensures WellShaped(q') && q'.notifications[0] == q.notifications[0] && q'.updates[0] == q.updates[0]
    ensures |sent| <= 42
    ensures var n := q.notifications[1]; |n| <= 21 ==> q'.notifications[1] == []
    ensures var n := q.notifications[1]; |n| > 21 ==> q'.notifications[1] == n[..|n| - 21]
  {
    q', sent := Drain(q, 1, 21);
  }
}
