/** Boa's request records and the intrusive doubly linked lists they live on
    (boa-0.94.13/src/globals.h, queue.c).
 */
module Requests {

  datatype Status =
    ReadHeader | OneCr | OneLf | TwoCr | BodyRead | BodyWrite | Write | PipeRead | PipeWrite | Done | Dead

  datatype KeepAlive = Inactive | Stopped | Active

  /** Which list a record is on. */
  datatype Place = Off | OnReady | OnBlock | OnFree

  /** A system call that may block. */
  datatype Call = Call(fd: nat, writing: bool)

  /** The fields of a record that the event loop looks at, apart from its links. The last is for
      the proof: the call that the record's handler made last. */
  datatype Info = Info(
    fd: nat,
    dataFd: nat,        // 0 for none
    postDataFd: nat,    // 0 for none
    status: Status,
    bufferEnd: nat,
    keepalive: KeepAlive,
    kacount: int,
    responseStatus: nat,
    logline: bool,      // something of this request has been read
    timeLast: int,
    call: Call)

  const ZERO: Info := Info(0, 0, 0, ReadHeader, 0, Inactive, 0, 0, false, 0, Call(0, false))

  class Request {
    ghost var place: Place
    var next: Request?
    var prev: Request?
    var info: Info

    constructor ()
      ensures place == Off && info == ZERO
    {
      place, next, prev, info := Off, null, null, ZERO;
    }
  }

  ghost predicate Distinct<T>(s: seq<T>) {
    forall i, j | 0 <= i < j < |s| :: s[i] != s[j]
  }

  /** The list that starts at `head` is exactly `s`: linked both ways, hence acyclic; and its
      records are on no other list. */
  ghost predicate Linked(head: Request?, s: seq<Request>, place: Place)
    reads s`next, s`prev, s`place
  {
    && Distinct(s)
    && (forall i | 0 <= i < |s| :: s[i].place == place)
    && (if s == [] then head == null else head == s[0] && s[0].prev == null && s[|s| - 1].next == null)
    && (forall i, j | 0 <= i < j < |s| && j == i + 1 :: s[i].next == s[j] && s[j].prev == s[i])
  }

  function Without<T>(s: seq<T>, k: nat): (r: seq<T>)
    requires k < |s|
    ensures |r| == |s| - 1
    ensures forall i | 0 <= i < |r| :: r[i] == if i < k then s[i] else s[i + 1]
  {
    seq(|s| - 1, i requires 0 <= i < |s| - 1 => if i < k then s[i] else s[i + 1])
  }

  /** `enqueue`. */
  method Enqueue(head: Request?, req: Request, ghost s: seq<Request>, ghost place: Place)
    returns (head': Request)
    requires Linked(head, s, place) && req.place == Off != place
    modifies req`next, req`prev, req`place, s`prev
    ensures head' == req && Linked(head', [req] + s, place)
  {
    if head != null {
      head.prev := req;
    }
    req.next := head;
    req.prev := null;
    req.place := place;
    head' := req;
  }

  /** `dequeue`, given where on its list the request is. */
  method Dequeue(head: Request?, req: Request, ghost s: seq<Request>, ghost k: nat, ghost place: Place)
    returns (head': Request?)
    requires Linked(head, s, place) && k < |s| && s[k] == req
    modifies s`next, s`prev, req`place
    ensures Linked(head', Without(s, k), place)
    ensures req.next == null && req.prev == null && req.place == Off
  {
    assert if k == 0 then req.prev == null else req.prev == s[k - 1];
    assert if k == |s| - 1 then req.next == null else req.next == s[k + 1];
    head' := if head == req then req.next else head;
    if req.prev != null {
      req.prev.next := req.next;
    }
    if req.next != null {
      req.next.prev := req.prev;
    }
    req.next := null;
    req.prev := null;
    req.place := Off;
    ghost var s' := Without(s, k);
    assert forall i, j | 0 <= i < j < |s'| && j == i + 1 :: s'[i].next == s'[j] && s'[j].prev == s'[i];
  }

  /** Lists at different places share no record. */
  lemma Disjoint(s: seq<Request>, p: Place, t: seq<Request>, q: Place)
    requires p != q
    requires forall i | 0 <= i < |s| :: s[i].place == p
    requires forall i | 0 <= i < |t| :: t[i].place == q
    ensures forall i | 0 <= i < |t| :: t[i] !in s
  {}

  /** `dequeue` from one list, while two others stay as they are. */
  method Take(head: Request?, req: Request, ghost s: seq<Request>, ghost k: nat, ghost p: Place,
              ghost head1: Request?, ghost s1: seq<Request>, ghost p1: Place,
              ghost head2: Request?, ghost s2: seq<Request>, ghost p2: Place)
    returns (head': Request?)
    requires Linked(head, s, p) && k < |s| && s[k] == req
    requires Linked(head1, s1, p1) && Linked(head2, s2, p2) && p != p1 && p != p2
    modifies s`next, s`prev, req`place
    ensures Linked(head', Without(s, k), p) && req.place == Off
    ensures Linked(head1, s1, p1) && Linked(head2, s2, p2)
  {
    Disjoint(s, p, s1, p1);
    Disjoint(s, p, s2, p2);
    head' := Dequeue(head, req, s, k, p);
    assert forall i | 0 <= i < |s1| ::
      s1[i].next == old(s1[i].next) && s1[i].prev == old(s1[i].prev) && s1[i].place == old(s1[i].place);
    assert forall i | 0 <= i < |s2| ::
      s2[i].next == old(s2[i].next) && s2[i].prev == old(s2[i].prev) && s2[i].place == old(s2[i].place);
  }

  /** `enqueue` onto one list, while two others stay as they are. */
  method Put(head: Request?, req: Request, ghost s: seq<Request>, ghost p: Place,
             ghost head1: Request?, ghost s1: seq<Request>, ghost p1: Place,
             ghost head2: Request?, ghost s2: seq<Request>, ghost p2: Place)
    returns (head': Request)
    requires Linked(head, s, p) && req.place == Off != p
    requires Linked(head1, s1, p1) && Linked(head2, s2, p2) && p != p1 && p != p2 && p1 != Off && p2 != Off
    modifies req`next, req`prev, req`place, s`prev
    ensures Linked(head', [req] + s, p) && head' == req
    ensures Linked(head1, s1, p1) && Linked(head2, s2, p2)
  {
    Disjoint(s, p, s1, p1);
    Disjoint(s, p, s2, p2);
    head' := Enqueue(head, req, s, p);
    assert forall i | 0 <= i < |s1| ::
      s1[i].next == old(s1[i].next) && s1[i].prev == old(s1[i].prev) && s1[i].place == old(s1[i].place);
    assert forall i | 0 <= i < |s2| ::
      s2[i].next == old(s2[i].next) && s2[i].prev == old(s2[i].prev) && s2[i].place == old(s2[i].place);
  }
}
