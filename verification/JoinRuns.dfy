/** Any number of `join` requests at once: every interleaving of their database
    statements, with tokens minted and withdrawn, nodes forgotten, and requests
    stopping anywhere.
 */
module JoinRuns {
  import opened Text
  import opened Join

  /** `minted` and `spenders` are logs: the address of every token there has ever
      been, and the node that spent it. `replies`: what was answered. */
  datatype System = System(
    db: Database, handlers: map<nat, Handler>, minted: map<string, string>, spenders: map<string, string>,
    replies: map<nat, Reply>)

  datatype Action =
    | Mint(secret: string, overlayIp: string, offers: seq<string>, expiresAt: int)
    | Withdraw(token: string)
    | Forget(node: string)
    | Begin(request: nat, presented: string, arriving: Arriving, now: int)
    | Next(request: nat)
    | Stop(request: nat)

  /** An address that neither a node nor an enrolment has: what `allocate` gives. */
  ghost predicate Free(db: Database, overlayIp: string) {
    && (forall n :: n in db.nodes ==> db.nodes[n].overlayIp != Some(overlayIp))
    && (forall t :: t in db.enrolments ==> db.enrolments[t].overlayIp != overlayIp)
  }

  ghost predicate Enabled(s: System, a: Action) {
    match a
    case Mint(secret, overlayIp, _, _) => secret !in s.minted && Free(s.db, overlayIp)
    case Withdraw(token) => token in s.db.enrolments
    case Forget(node) => s.db.self != Some(node)
    case Begin(request, presented, arriving, now) =>
      && request !in s.handlers && request !in s.replies
      && DescribesANode(arriving) && LookUp(s.db, presented, now).Some?
    case Next(request) => request in s.handlers
    case Stop(request) => request in s.handlers
  }

  /** A request that goes on from `Found` has spent its token. */
  function SpendersAfter(spenders: map<string, string>, h: Handler): map<string, string> {
    if h.phase == Found then spenders[h.secret := h.arriving.node] else spenders
  }

  function Step(s: System, a: Action): System {
    match a
    case Mint(secret, overlayIp, offers, expiresAt) =>
      s.(db := s.db.(enrolments := s.db.enrolments[secret := Enrolment(overlayIp, offers, expiresAt, None)]),
         minted := s.minted[secret := overlayIp])
    case Withdraw(token) => s.(db := s.db.(enrolments := s.db.enrolments - {token}))
    case Forget(node) => s.(db := s.db.(nodes := s.db.nodes - {node}))
    case Begin(request, presented, arriving, now) =>
      var found := LookUp(s.db, presented, now);
      if found == None then s
      else s.(handlers := s.handlers[request := Arrival(presented, found.value, arriving)])
    case Next(request) =>
      if request !in s.handlers then s else
        (match Advance(s.db, s.handlers[request])
         case GoesOn(db, h) =>
           var spenders := SpendersAfter(s.spenders, s.handlers[request]);
           s.(db := db, handlers := s.handlers[request := h], spenders := spenders)
         case Answers(db, reply) =>
           s.(db := db, handlers := s.handlers - {request}, replies := s.replies[request := reply]))
    case Stop(request) => s.(handlers := s.handlers - {request})
  }

  ghost predicate Runs(s: System, actions: seq<Action>, t: System)
    decreases |actions|
  {
    if actions == [] then s == t
    else Enabled(s, actions[0]) && Runs(Step(s, actions[0]), actions[1..], t)
  }

  /** A node of its own and nothing else. */
  function Fresh(me: string, row: Row): System {
    System(Database(Some(me), map[], map[me := row], map[]), map[], map[], map[], map[])
  }

  // ---------- what every step keeps ----------

  /** The node spent a token with this address. */
  ghost predicate Earned(s: System, node: string, overlayIp: string) {
    exists t :: t in s.spenders && t in s.minted && s.spenders[t] == node && s.minted[t] == overlayIp
  }

  ghost predicate TokensOk(s: System, row: Row) {
    && (forall t :: t in s.spenders ==> t in s.minted)
    && (forall t :: t in s.minted ==> row.overlayIp != Some(s.minted[t]))
    && (forall t :: t in s.db.enrolments ==>
          && t in s.minted && s.minted[t] == s.db.enrolments[t].overlayIp
          && s.db.enrolments[t].usedBy == if t in s.spenders then Some(s.spenders[t]) else None)
    && (forall t, u :: t in s.db.enrolments && u in s.db.enrolments && t != u
          ==> s.db.enrolments[t].overlayIp != s.db.enrolments[u].overlayIp)
  }

  /** No address is in two rows. */
  ghost predicate Apart(nodes: map<string, Row>) {
    forall a, b :: a in nodes && b in nodes && a != b && nodes[a].overlayIp.Some? ==>
      nodes[a].overlayIp != nodes[b].overlayIp
  }

  ghost predicate NodesOk(s: System, me: string, row: Row) {
    && s.db.self == Some(me) && me in s.db.nodes && s.db.nodes[me] == row
    && Apart(s.db.nodes)
    && (forall n :: n in s.db.nodes && n != me ==>
          s.db.nodes[n].overlayIp.Some? && Earned(s, n, s.db.nodes[n].overlayIp.value))
  }

  predicate PastSpend(p: Phase) { p == Spent || p == Saved || p == Named || p == Granted }

  ghost predicate HandlerOk(s: System, me: string, h: Handler) {
    && h.secret in s.minted && s.minted[h.secret] == h.enrolment.overlayIp
    && (h.phase != Looked ==> h.arriving.node != me)
    && (h.phase == Looked ==> h.known == None)
    && (h.known.Some? ==> h.known.value.overlayIp.Some? && Earned(s, h.arriving.node, h.known.value.overlayIp.value))
    && (PastSpend(h.phase) ==> h.secret in s.spenders && s.spenders[h.secret] == h.arriving.node)
    && (h.phase == Named || h.phase == Granted ==> h.me == me)
  }

  ghost predicate Inv(s: System, me: string, row: Row) {
    && TokensOk(s, row) && NodesOk(s, me, row)
    && (forall r :: r in s.handlers ==> HandlerOk(s, me, s.handlers[r]))
  }

  /** The logs only grow. */
  ghost predicate Grows(s: System, t: System) {
    && (forall k :: k in s.minted ==> k in t.minted && t.minted[k] == s.minted[k])
    && (forall k :: k in s.spenders ==> k in t.spenders && t.spenders[k] == s.spenders[k])
  }

  lemma EarnedForEver(s: System, t: System)
    requires Grows(s, t)
    ensures forall n, ip :: Earned(s, n, ip) ==> Earned(t, n, ip)
  {
    forall n, ip | Earned(s, n, ip)
      ensures Earned(t, n, ip)
    {
      var k :| k in s.spenders && k in s.minted && s.spenders[k] == n && s.minted[k] == ip;
      assert k in t.spenders && k in t.minted;
    }
  }

  /** What the handlers that do not move need of a step. */
  lemma OthersStayOk(s: System, t: System, me: string, h: Handler)
    requires HandlerOk(s, me, h) && Grows(s, t)
    ensures HandlerOk(t, me, h)
  {
    EarnedForEver(s, t);
  }

  /** The address a request will save is one that its node spent a token for. */
  lemma AddressIsEarned(s: System, me: string, h: Handler)
    requires HandlerOk(s, me, h) && PastSpend(h.phase)
    ensures Earned(s, h.arriving.node, AddressOf(h))
  {
    assert h.secret in s.spenders;
  }

  /** A token that can be spent has not been spent by another node. */
  lemma NextOfTokens(s: System, request: nat, row: Row)
    requires TokensOk(s, row) && request in s.handlers
    ensures var t, h := Step(s, Next(request)), s.handlers[request];
            && t.minted == s.minted
            && if h.phase == Found && MaySpend(s.db, h.secret, h.arriving.node) then
                 && t.db.enrolments == Spend(s.db, h.secret, h.arriving.node).enrolments
                 && t.spenders == s.spenders[h.secret := h.arriving.node]
                 && (h.secret in s.spenders ==> s.spenders[h.secret] == h.arriving.node)
               else t.db.enrolments == s.db.enrolments && t.spenders == s.spenders
  {
  }

  lemma NextGrows(s: System, request: nat, me: string, row: Row)
    requires Inv(s, me, row) && request in s.handlers
    ensures Grows(s, Step(s, Next(request)))
    ensures TokensOk(Step(s, Next(request)), row)
  {
    hide Step, NodesOk;
    NextOfTokens(s, request, row);
    var t, h := Step(s, Next(request)), s.handlers[request];
    assert HandlerOk(s, me, h);
    if h.phase == Found && MaySpend(s.db, h.secret, h.arriving.node) {
      SpendKeepsTokens(s, t, h, row);
    }
  }

  lemma SpendKeepsTokens(s: System, t: System, h: Handler, row: Row)
    requires TokensOk(s, row) && MaySpend(s.db, h.secret, h.arriving.node)
    requires t.minted == s.minted && t.spenders == s.spenders[h.secret := h.arriving.node]
    requires t.db.enrolments == Spend(s.db, h.secret, h.arriving.node).enrolments
    ensures TokensOk(t, row)
  {
  }

  lemma SaveKeepsApart(db: Database, node: string, saved: Row, overlayIp: string)
    requires Apart(db.nodes) && saved.overlayIp == Some(overlayIp) && !Taken(db, node, overlayIp)
    ensures Apart(Save(db, node, saved).nodes)
  {
  }

  /** Only a save touches the rows, and only a row of the request's node. */
  lemma NextTouches(s: System, request: nat)
    requires request in s.handlers
    ensures var t, h := Step(s, Next(request)), s.handlers[request];
            && t.db.self == s.db.self
            && t.db.nodes == if h.phase == Spent && !Taken(s.db, h.arriving.node, AddressOf(h))
                             then s.db.nodes[h.arriving.node := RowOf(h)] else s.db.nodes
  {
  }

  lemma NextKeepsNodes(s: System, request: nat, me: string, row: Row)
    requires Inv(s, me, row) && request in s.handlers
    ensures NodesOk(Step(s, Next(request)), me, row)
  {
    hide Step, Earned, TokensOk;
    var t, h := Step(s, Next(request)), s.handlers[request];
    assert HandlerOk(s, me, h);
    NextGrows(s, request, me, row);
    EarnedForEver(s, t);
    NextTouches(s, request);
    if h.phase == Spent && !Taken(s.db, h.arriving.node, AddressOf(h)) {
      AddressIsEarned(s, me, h);
      SaveKeepsApart(s.db, h.arriving.node, RowOf(h), AddressOf(h));
    }
  }

  /** What a request has read is not read again. */
  lemma NextOfHandler(s: System, request: nat)
    requires request in s.handlers
    ensures var t, h := Step(s, Next(request)), s.handlers[request];
            request in t.handlers ==>
              var next := t.handlers[request];
              && next.secret == h.secret && next.enrolment == h.enrolment && next.arriving == h.arriving
              && next.phase != Looked
              && (h.phase != Looked ==> next.known == h.known && AddressOf(next) == AddressOf(h))
              && (h.phase == Looked ==> next.phase == Found && next.known == FindNode(s.db, h.arriving.node)
                                        && !IsSelf(s.db, h.arriving.node))
              && (h.phase == Found ==> t.spenders == s.spenders[h.secret := h.arriving.node])
              && (PastSpend(next.phase) ==> h.phase == Found || PastSpend(h.phase))
              && (next.phase == Named ==> s.db.self == Some(next.me))
              && (next.phase == Granted ==> h.phase == Named && next.me == h.me)
  {
  }

  lemma NextKeepsHandler(s: System, request: nat, me: string, row: Row)
    requires Inv(s, me, row) && request in s.handlers
    ensures var t := Step(s, Next(request)); request in t.handlers ==> HandlerOk(t, me, t.handlers[request])
  {
    hide Step, Earned, TokensOk, Apart;
    var t, h := Step(s, Next(request)), s.handlers[request];
    assert HandlerOk(s, me, h);
    NextGrows(s, request, me, row);
    EarnedForEver(s, t);
    NextOfHandler(s, request);
  }

  lemma NextKeepsInv(s: System, request: nat, me: string, row: Row)
    requires Inv(s, me, row) && request in s.handlers
    ensures Inv(Step(s, Next(request)), me, row)
  {
    hide Advance;
    var t := Step(s, Next(request));
    NextGrows(s, request, me, row);
    NextKeepsNodes(s, request, me, row);
    NextKeepsHandler(s, request, me, row);
    forall r | r in t.handlers
      ensures HandlerOk(t, me, t.handlers[r])
    {
      if r != request { OthersStayOk(s, t, me, s.handlers[r]); }
    }
  }

  lemma MintKeepsInv(s: System, a: Action, me: string, row: Row)
    requires Inv(s, me, row) && a.Mint? && Enabled(s, a)
    ensures Inv(Step(s, a), me, row)
  {
    var t := Step(s, a);
    assert me in s.db.nodes;
    EarnedForEver(s, t);
    forall r | r in t.handlers
      ensures HandlerOk(t, me, t.handlers[r])
    {
      OthersStayOk(s, t, me, s.handlers[r]);
    }
  }

  lemma RemovalKeepsInv(s: System, a: Action, me: string, row: Row)
    requires Inv(s, me, row) && (a.Withdraw? || a.Forget?) && Enabled(s, a)
    ensures Inv(Step(s, a), me, row)
  {
    var t := Step(s, a);
    EarnedForEver(s, t);
    forall r | r in t.handlers
      ensures HandlerOk(t, me, t.handlers[r])
    {
      OthersStayOk(s, t, me, s.handlers[r]);
    }
  }

  lemma BeginKeepsInv(s: System, a: Action, me: string, row: Row)
    requires Inv(s, me, row) && a.Begin? && Enabled(s, a)
    ensures Inv(Step(s, a), me, row)
  {
    var t := Step(s, a);
    forall r | r in t.handlers
      ensures HandlerOk(t, me, t.handlers[r])
    {
      if r != a.request { OthersStayOk(s, t, me, s.handlers[r]); }
    }
  }

  lemma StepKeepsInv(s: System, a: Action, me: string, row: Row)
    requires Inv(s, me, row) && Enabled(s, a)
    ensures Inv(Step(s, a), me, row)
  {
    match a
    case Mint(_, _, _, _) => MintKeepsInv(s, a, me, row);
    case Withdraw(_) => RemovalKeepsInv(s, a, me, row);
    case Forget(_) => RemovalKeepsInv(s, a, me, row);
    case Begin(_, _, _, _) => BeginKeepsInv(s, a, me, row);
    case Next(request) => NextKeepsInv(s, request, me, row);
    case Stop(_) =>
      var t := Step(s, a);
      forall r | r in t.handlers
        ensures HandlerOk(t, me, t.handlers[r])
      {
        OthersStayOk(s, t, me, s.handlers[r]);
      }
  }

  lemma {:induction false} RunKeepsInv(s: System, actions: seq<Action>, t: System, me: string, row: Row)
    requires Inv(s, me, row) && Runs(s, actions, t)
    ensures Inv(t, me, row)
    decreases |actions|
  {
    hide Inv, Enabled;
    if actions != [] {
      StepKeepsInv(s, actions[0], me, row);
      RunKeepsInv(Step(s, actions[0]), actions[1..], t, me, row);
    }
  }

  // ---------- safety over every run ----------

  /** Over every run of joins and retries by any nodes with any tokens, with
      requests overlapping and stopping anywhere, tokens withdrawn spent or not,
      and nodes forgotten: every address recorded came from a token spent by that
      node, no two nodes share one, and this node's own row is never written. */
  lemma AddressesAreNeverShared(me: string, row: Row, actions: seq<Action>, t: System)
    requires Runs(Fresh(me, row), actions, t)
    ensures t.db.self == Some(me) && me in t.db.nodes && t.db.nodes[me] == row
    ensures forall n :: n in t.db.nodes && n != me ==>
              t.db.nodes[n].overlayIp.Some? && Earned(t, n, t.db.nodes[n].overlayIp.value)
    ensures forall a, b :: a in t.db.nodes && b in t.db.nodes && a != b && t.db.nodes[a].overlayIp.Some?
              ==> t.db.nodes[a].overlayIp != t.db.nodes[b].overlayIp
  {
    RunKeepsInv(Fresh(me, row), actions, t, me, row);
  }

  /** Another node has recorded the address, from a token of its own. */
  ghost predicate HandedTwice(s: System, node: string, overlayIp: string) {
    exists t :: && t in s.spenders && t in s.minted && s.minted[t] == overlayIp && s.spenders[t] != node
                && s.spenders[t] in s.db.nodes && s.db.nodes[s.spenders[t]].overlayIp == Some(overlayIp)
  }

  /** Over every run, the unique index on addresses refuses a save exactly if the
      address was handed out twice: another node spent a second token with it and
      has it in its row. */
  lemma RefusedExactlyIfHandedTwice(me: string, row: Row, actions: seq<Action>, s: System, request: nat)
    requires Runs(Fresh(me, row), actions, s)
    requires request in s.handlers && s.handlers[request].phase == Spent
    ensures var h := s.handlers[request];
            Advance(s.db, h) == Answers(s.db, Unreadable) <==> HandedTwice(s, h.arriving.node, AddressOf(h))
  {
    RunKeepsInv(Fresh(me, row), actions, s, me, row);
    var h := s.handlers[request];
    var node, ip := h.arriving.node, AddressOf(h);
    assert HandlerOk(s, me, h);
    AddressIsEarned(s, me, h);
    if Taken(s.db, node, ip) {
      var other :| other in s.db.nodes && other != node && s.db.nodes[other].overlayIp == Some(ip);
      assert Earned(s, other, ip);
      var t :| t in s.spenders && t in s.minted && s.spenders[t] == other && s.minted[t] == ip;
      assert HandedTwice(s, node, ip);
    }
  }

  ghost predicate StillThere(s: System, overlayIp: string) {
    forall t :: t in s.spenders && t in s.minted && s.minted[t] == overlayIp ==> t in s.db.enrolments
  }

  /** Which takes the withdrawal of a spent token: as long as every token spent on
      the address is still there, no save of it is refused. */
  lemma NeverTaken(me: string, row: Row, actions: seq<Action>, s: System, request: nat)
    requires Runs(Fresh(me, row), actions, s)
    requires request in s.handlers && s.handlers[request].phase == Spent
    requires StillThere(s, AddressOf(s.handlers[request]))
    ensures Advance(s.db, s.handlers[request]).GoesOn?
  {
    RunKeepsInv(Fresh(me, row), actions, s, me, row);
    var h := s.handlers[request];
    var node, ip := h.arriving.node, AddressOf(h);
    assert HandlerOk(s, me, h);
    AddressIsEarned(s, me, h);
    var u :| u in s.spenders && u in s.minted && s.spenders[u] == node && s.minted[u] == ip;
    RefusedExactlyIfHandedTwice(me, row, actions, s, request);
  }

  // ---------- when a known node moves ----------

  /** The requests of a node that have looked it up, and its row if it has one,
      are of one mind about its address. */
  ghost predicate Agreed(s: System, node: string) {
    && (forall r, q :: Holds(s, r, node) && Holds(s, q, node) ==> AddressOf(s.handlers[r]) == AddressOf(s.handlers[q]))
    && (node in s.db.nodes ==>
          forall r :: Holds(s, r, node) ==> s.db.nodes[node].overlayIp == Some(AddressOf(s.handlers[r])))
  }

  /** A request of the node that has looked it up, and so has settled on an address. */
  ghost predicate Holds(s: System, r: nat, node: string) {
    r in s.handlers && s.handlers[r].arriving.node == node && s.handlers[r].phase != Looked
  }

  /** A request is about to look a node up, there is no row to be found, and another
      request of the node has settled on an address other than its token's. */
  ghost predicate Clashes(s: System, a: Action, node: string) {
    && a.Next? && a.request in s.handlers
    && var h := s.handlers[a.request];
       && h.arriving.node == node && h.phase == Looked && node !in s.db.nodes
       && exists q :: Holds(s, q, node) && AddressOf(s.handlers[q]) != h.enrolment.overlayIp
  }

  /** A row that is there before and after has the same address. */
  ghost predicate StaysPut(before: Database, after: Database, node: string) {
    node in before.nodes && node in after.nodes ==> after.nodes[node].overlayIp == before.nodes[node].overlayIp
  }

  lemma LookupAgrees(s: System, request: nat, me: string, row: Row, node: string)
    requires Inv(s, me, row) && Agreed(s, node) && request in s.handlers
    requires s.handlers[request].phase == Looked && s.handlers[request].arriving.node == node
    ensures Agreed(Step(s, Next(request)), node) <==> !Clashes(s, Next(request), node)
    ensures StaysPut(s.db, Step(s, Next(request)).db, node)
  {
    hide Step, Earned, TokensOk, Apart, RowOf;
    var t, h := Step(s, Next(request)), s.handlers[request];
    assert HandlerOk(s, me, h);
    NextTouches(s, request);
    NextOfHandler(s, request);
    OthersStay(s, request);
    LookupGoesOn(s, request);
    assert forall q :: q != request ==> (Holds(t, q, node) <==> Holds(s, q, node));
    if Clashes(s, Next(request), node) {
      var q :| Holds(s, q, node) && AddressOf(s.handlers[q]) != h.enrolment.overlayIp;
      assert Holds(t, q, node) && Holds(t, request, node);
    }
  }

  lemma NextAgrees(s: System, request: nat, me: string, row: Row, node: string)
    requires Inv(s, me, row) && Agreed(s, node) && request in s.handlers
    requires s.handlers[request].phase != Looked || s.handlers[request].arriving.node != node
    ensures Agreed(Step(s, Next(request)), node) && !Clashes(s, Next(request), node)
    ensures StaysPut(s.db, Step(s, Next(request)).db, node)
  {
    hide Step, Inv, AddressOf, RowOf;
    var t, h := Step(s, Next(request)), s.handlers[request];
    NextTouches(s, request);
    NextOfHandler(s, request);
    OthersStay(s, request);
    RowSaved(h);
    assert h.arriving.node == node ==> Holds(s, request, node);
    assert forall q :: Holds(t, q, node) ==> Holds(s, q, node) && AddressOf(t.handlers[q]) == AddressOf(s.handlers[q]);
  }

  lemma LookupGoesOn(s: System, request: nat)
    requires request in s.handlers && s.handlers[request].phase == Looked
    ensures !IsSelf(s.db, s.handlers[request].arriving.node) ==> request in Step(s, Next(request)).handlers
    ensures s.handlers[request].arriving.node !in s.db.nodes ==> request in Step(s, Next(request)).handlers
  {
  }

  lemma RowSaved(h: Handler)
    ensures RowOf(h).overlayIp == Some(AddressOf(h))
  {
  }

  lemma OthersStay(s: System, request: nat)
    requires request in s.handlers
    ensures var t := Step(s, Next(request));
            forall q :: q != request ==>
              && (q in t.handlers <==> q in s.handlers)
              && (q in s.handlers ==> t.handlers[q] == s.handlers[q])
  {
  }

  lemma OthersAgree(s: System, a: Action, node: string)
    requires Agreed(s, node) && Enabled(s, a) && !a.Next?
    ensures Agreed(Step(s, a), node) && StaysPut(s.db, Step(s, a).db, node)
  {
    hide AddressOf;
    var t := Step(s, a);
    assert forall q :: Holds(t, q, node) ==> Holds(s, q, node) && t.handlers[q] == s.handlers[q];
  }

  /** While a node's requests agree, no step of anything moves it; and they go on
      agreeing exactly if the step is no clash. */
  lemma OnlyAClashDisagrees(s: System, a: Action, me: string, row: Row, node: string)
    requires Inv(s, me, row) && Agreed(s, node) && Enabled(s, a)
    ensures StaysPut(s.db, Step(s, a).db, node)
    ensures Agreed(Step(s, a), node) <==> !Clashes(s, a, node)
  {
    if a.Next? {
      hide Step, Agreed, StaysPut, Clashes, Inv;
      var h := s.handlers[a.request];
      if h.phase == Looked && h.arriving.node == node {
        LookupAgrees(s, a.request, me, row, node);
      } else {
        NextAgrees(s, a.request, me, row, node);
      }
    } else {
      hide Inv, AddressOf;
      OthersAgree(s, a, node);
    }
  }

  /** A clash takes two tokens, or a node forgotten while a request that had found
      it was in flight. So a node that retries with one token does not clash, nor
      one whose row is there, nor one that makes one request at a time. */
  lemma WhatAClashTakes(s: System, a: Action, me: string, row: Row, node: string)
    requires Inv(s, me, row) && Clashes(s, a, node)
    ensures node !in s.db.nodes
    ensures exists q :: Holds(s, q, node) && q != a.request
                     && (s.handlers[q].secret != s.handlers[a.request].secret || s.handlers[q].known.Some?)
  {
    var h := s.handlers[a.request];
    var q :| Holds(s, q, node) && AddressOf(s.handlers[q]) != h.enrolment.overlayIp;
    assert HandlerOk(s, me, h) && HandlerOk(s, me, s.handlers[q]);
    assert q != a.request;
  }

  /** A run without a clash of this node's requests; others may do as they like. */
  ghost predicate RunsApart(s: System, actions: seq<Action>, t: System, node: string)
    decreases |actions|
  {
    if actions == [] then s == t
    else
      && Enabled(s, actions[0]) && !Clashes(s, actions[0], node)
      && RunsApart(Step(s, actions[0]), actions[1..], t, node)
  }

  predicate NeverForgets(actions: seq<Action>, node: string) {
    forall k :: 0 <= k < |actions| ==> actions[k] != Forget(node)
  }

  lemma StepKeepsRow(s: System, a: Action, node: string)
    requires node in s.db.nodes && a != Forget(node)
    ensures node in Step(s, a).db.nodes
  {
  }

  lemma {:induction false} KeepsItsAddress(
    s: System, actions: seq<Action>, t: System, me: string, row: Row, node: string)
    requires Inv(s, me, row) && Agreed(s, node) && RunsApart(s, actions, t, node)
    ensures Inv(t, me, row) && Agreed(t, node)
    ensures node in s.db.nodes && NeverForgets(actions, node) ==>
              node in t.db.nodes && t.db.nodes[node].overlayIp == s.db.nodes[node].overlayIp
    decreases |actions|
  {
    hide Inv, Agreed, Enabled, Clashes;
    if actions != [] {
      StepKeepsInv(s, actions[0], me, row);
      OnlyAClashDisagrees(s, actions[0], me, row, node);
      if node in s.db.nodes && NeverForgets(actions, node) {
        assert actions[0] != Forget(node);
        StepKeepsRow(s, actions[0], node);
      }
      KeepsItsAddress(Step(s, actions[0]), actions[1..], t, me, row, node);
    }
  }

  lemma FreshIsAgreed(me: string, row: Row, node: string)
    ensures Inv(Fresh(me, row), me, row) && Agreed(Fresh(me, row), node)
  {
  }

  /** Over every run in which this node's requests do not clash: from any moment to
      any later one, a node that is known and not forgotten has the same address,
      whatever tokens it presents and however its requests overlap. */
  lemma KnownNodesNeverMove(
    me: string, row: Row, before: seq<Action>, s: System, more: seq<Action>, t: System, node: string)
    requires RunsApart(Fresh(me, row), before, s, node) && RunsApart(s, more, t, node)
    requires node in s.db.nodes && NeverForgets(more, node)
    ensures node in t.db.nodes && t.db.nodes[node].overlayIp == s.db.nodes[node].overlayIp
  {
    FreshIsAgreed(me, row, node);
    KeepsItsAddress(Fresh(me, row), before, s, me, row, node);
    KeepsItsAddress(s, more, t, me, row, node);
  }

  /** And at any moment of such a run, an answer that is about to be given to the
      node names the address in its row. */
  lemma RepliesNameTheRow(me: string, row: Row, actions: seq<Action>, s: System, node: string, request: nat)
    requires RunsApart(Fresh(me, row), actions, s, node)
    requires request in s.handlers && s.handlers[request].phase == Granted
    requires s.handlers[request].arriving.node == node
    ensures var h := s.handlers[request];
            && Advance(s.db, h) == Answers(s.db, Accepted(me, AddressOf(h)))
            && (node in s.db.nodes ==> s.db.nodes[node].overlayIp == Some(AddressOf(h)))
  {
    FreshIsAgreed(me, row, node);
    KeepsItsAddress(Fresh(me, row), actions, s, me, row, node);
    assert HandlerOk(s, me, s.handlers[request]);
    assert Holds(s, request, node);
  }

  /** A step that starts no first join with a second token while one is in flight, and
      does not forget the node under a request that has looked it up. */
  ghost predicate Steady(s: System, a: Action, node: string) {
    && (a == Forget(node) ==> forall q :: !Holds(s, q, node))
    && (a.Next? && a.request in s.handlers && s.handlers[a.request].phase == Looked
        && s.handlers[a.request].arriving.node == node && node !in s.db.nodes ==>
          forall q :: Holds(s, q, node) ==> s.handlers[q].secret == s.handlers[a.request].secret)
  }

  ghost predicate RunsSteadily(s: System, actions: seq<Action>, t: System, node: string)
    decreases |actions|
  {
    if actions == [] then s == t
    else
      && Enabled(s, actions[0]) && Steady(s, actions[0], node)
      && RunsSteadily(Step(s, actions[0]), actions[1..], t, node)
  }

  /** Of a node without a row no request has found one. */
  ghost predicate NoneFound(s: System, node: string) {
    node !in s.db.nodes ==> forall q :: Holds(s, q, node) ==> s.handlers[q].known == None
  }

  lemma SteadyKeepsNoneFound(s: System, a: Action, node: string)
    requires NoneFound(s, node) && Enabled(s, a) && Steady(s, a, node)
    ensures NoneFound(Step(s, a), node)
  {
    var t := Step(s, a);
    if a.Next? {
      hide Step, AddressOf, RowOf;
      NextTouches(s, a.request);
      NextOfHandler(s, a.request);
      OthersStay(s, a.request);
      assert forall q :: q != a.request ==> (Holds(t, q, node) <==> Holds(s, q, node));
      assert s.handlers[a.request].phase != Looked && s.handlers[a.request].arriving.node == node ==>
               Holds(s, a.request, node);
    } else {
      assert forall q :: Holds(t, q, node) ==> Holds(s, q, node) && t.handlers[q] == s.handlers[q];
    }
  }

  lemma SteadyIsNoClash(s: System, a: Action, me: string, row: Row, node: string)
    requires Inv(s, me, row) && NoneFound(s, node) && Steady(s, a, node)
    ensures !Clashes(s, a, node)
  {
    assert a.Next? && a.request in s.handlers ==> HandlerOk(s, me, s.handlers[a.request]);
  }

  /** So it is enough that a node's first joins that overlap present one token, as a
      retry does, and that a node is not forgotten under its own request. */
  lemma {:induction false} SteadyRunsAreApart(
    s: System, actions: seq<Action>, t: System, me: string, row: Row, node: string)
    requires Inv(s, me, row) && NoneFound(s, node) && RunsSteadily(s, actions, t, node)
    ensures RunsApart(s, actions, t, node)
    decreases |actions|
  {
    hide Inv, NoneFound, Steady, Enabled, Clashes;
    if actions != [] {
      SteadyIsNoClash(s, actions[0], me, row, node);
      StepKeepsInv(s, actions[0], me, row);
      SteadyKeepsNoneFound(s, actions[0], node);
      SteadyRunsAreApart(Step(s, actions[0]), actions[1..], t, me, row, node);
    }
  }

  // ---------- and when they overlap ----------

  lemma {:induction false} OneStepMore(s: System, actions: seq<Action>, t: System, a: Action)
    requires Runs(s, actions, t) && Enabled(t, a)
    ensures Runs(s, actions + [a], Step(t, a))
    decreases |actions|
  {
    if actions == [] {
      assert ([] + [a])[1..] == [];
    } else {
      assert (actions + [a])[1..] == actions[1..] + [a];
      OneStepMore(Step(s, actions[0]), actions[1..], t, a);
    }
  }

  lemma NoSteps(s: System)
    ensures Runs(s, [], s)
  {
  }

  /** Two requests of one new node, with two tokens, that have both looked the
      node up before either has saved it. */
  lemma BothLookedUp(me: string, row: Row, arriving: Arriving, first: string, second: string)
    returns (actions: seq<Action>, s: System)
    requires DescribesANode(arriving) && arriving.node != me && first != second
    requires row.overlayIp != Some(first) && row.overlayIp != Some(second)
    ensures Runs(Fresh(me, row), actions, s)
    ensures var e, f := Enrolment(first, [], 1, None), Enrolment(second, [], 1, None);
            && s.db == Database(Some(me), map["a" := e, "b" := f], map[me := row], map[])
            && s.handlers == map[
                 0 := Handler(Found, "a", e, arriving, None, ""),
                 1 := Handler(Found, "b", f, arriving, None, "")]
            && s.minted == map["a" := first, "b" := second] && s.replies == map[]
  {
    hide Runs;
    var s2;
    actions, s2 := TwoTokens(me, row, first, second);
    var s3 := Step(s2, Begin(0, "a", arriving, 0));
    var s4 := Step(s3, Begin(1, "b", arriving, 0));
    var s5 := Step(s4, Next(0));
    s := Step(s5, Next(1));
    var s0 := Fresh(me, row);
    OneStepMore(s0, actions, s2, Begin(0, "a", arriving, 0));
    actions := actions + [Begin(0, "a", arriving, 0)];
    OneStepMore(s0, actions, s3, Begin(1, "b", arriving, 0));
    actions := actions + [Begin(1, "b", arriving, 0)];
    OneStepMore(s0, actions, s4, Next(0));
    actions := actions + [Next(0)];
    OneStepMore(s0, actions, s5, Next(1));
    actions := actions + [Next(1)];
  }

  lemma TwoTokens(me: string, row: Row, first: string, second: string) returns (actions: seq<Action>, s: System)
    requires first != second && row.overlayIp != Some(first) && row.overlayIp != Some(second)
    ensures Runs(Fresh(me, row), actions, s)
    ensures var e, f := Enrolment(first, [], 1, None), Enrolment(second, [], 1, None);
            && s.db == Database(Some(me), map["a" := e, "b" := f], map[me := row], map[])
            && s.handlers == map[] && s.minted == map["a" := first, "b" := second] && s.replies == map[]
  {
    hide Runs;
    var s0 := Fresh(me, row);
    var s1 := Step(s0, Mint("a", first, [], 1));
    s := Step(s1, Mint("b", second, [], 1));
    NoSteps(s0);
    OneStepMore(s0, [], s0, Mint("a", first, [], 1));
    actions := [] + [Mint("a", first, [], 1)];
    OneStepMore(s0, actions, s1, Mint("b", second, [], 1));
    actions := actions + [Mint("b", second, [], 1)];
  }

  /** A request that has looked its node up and not yet saved it, and can. */
  ghost predicate CanSave(s: System, request: nat) {
    && request in s.handlers
    && var h := s.handlers[request];
       && (h.phase == Spent || (h.phase == Found && MaySpend(s.db, h.secret, h.arriving.node)))
       && !Taken(s.db, h.arriving.node, AddressOf(h))
  }

  /** Left alone, it saves the address it has settled on: a node that is known
      moves exactly if that is not the address in its row. */
  lemma SavesItsAddress(s: System, request: nat) returns (actions: seq<Action>, t: System)
    requires CanSave(s, request)
    ensures Runs(s, actions, t) && forall n :: NeverForgets(actions, n)
    ensures var h := s.handlers[request];
            && t.db.nodes == s.db.nodes[h.arriving.node := RowOf(h)]
            && t.handlers == s.handlers[request := h.(phase := Saved)]
            && (h.arriving.node in s.db.nodes ==>
                  (StaysPut(s.db, t.db, h.arriving.node) <==>
                   s.db.nodes[h.arriving.node].overlayIp == Some(AddressOf(h))))
    ensures var node := s.handlers[request].arriving.node;
            && (forall q :: q != request && CanSave(s, q) && s.handlers[q].arriving.node == node ==> CanSave(t, q))
            && t.minted == s.minted && t.db.self == s.db.self && t.replies == s.replies
            && t.db.enrolments.Keys == s.db.enrolments.Keys
            && (forall k :: k in s.db.enrolments ==> t.db.enrolments[k].overlayIp == s.db.enrolments[k].overlayIp)
  {
    var h := s.handlers[request];
    var u := s;
    actions := [];
    if h.phase == Found {
      u := Step(s, Next(request));
      assert u.handlers[request] == h.(phase := Spent);
      assert Taken(u.db, h.arriving.node, AddressOf(h)) == Taken(s.db, h.arriving.node, AddressOf(h));
      OneStepMore(s, [], s, Next(request));
      actions := [Next(request)];
    }
    t := Step(u, Next(request));
    OneStepMore(s, actions, u, Next(request));
    actions := actions + [Next(request)];
    assert t.handlers == s.handlers[request := h.(phase := Saved)];
    SavingLeavesOthersAble(s, u.db, t, request);
  }

  lemma SavingLeavesOthersAble(s: System, spent: Database, t: System, request: nat)
    requires request in s.handlers && spent.nodes == s.db.nodes
    requires var h := s.handlers[request];
             && t.db == Save(spent, h.arriving.node, RowOf(h))
             && t.handlers == s.handlers[request := h.(phase := Saved)]
             && (spent == s.db || (MaySpend(s.db, h.secret, h.arriving.node)
                                   && spent == Spend(s.db, h.secret, h.arriving.node)))
    ensures var node := s.handlers[request].arriving.node;
            forall q :: q != request && CanSave(s, q) && s.handlers[q].arriving.node == node ==> CanSave(t, q)
  {
    hide RowOf, AddressOf;
    var h := s.handlers[request];
    forall q | q != request && CanSave(s, q) && s.handlers[q].arriving.node == h.arriving.node
      ensures CanSave(t, q)
    {
      SaveKeepsOthers(spent, h.arriving.node, RowOf(h), AddressOf(s.handlers[q]));
      assert Taken(spent, h.arriving.node, AddressOf(s.handlers[q]))
          == Taken(s.db, h.arriving.node, AddressOf(s.handlers[q]));
    }
  }

  lemma {:induction false} RunsConcat(s: System, a: seq<Action>, t: System, b: seq<Action>, u: System)
    requires Runs(s, a, t) && Runs(t, b, u)
    ensures Runs(s, a + b, u)
    decreases |a|
  {
    if a == [] {
      assert a + b == b;
    } else {
      assert (a + b)[1..] == a[1..] + b;
      RunsConcat(Step(s, a[0]), a[1..], t, b, u);
    }
  }

  /** A clash does move the node, if both requests can go on to save: whoever saves
      last decides. So what a run without one promises holds of no more runs. */
  lemma AClashMovesTheNode(s: System, a: Action, node: string, q: nat)
    returns (before: seq<Action>, u: System, more: seq<Action>, t: System)
    requires Clashes(s, a, node) && Holds(s, q, node)
    requires AddressOf(s.handlers[q]) != s.handlers[a.request].enrolment.overlayIp
    requires CanSave(s, q) && CanSave(Step(s, a), a.request)
    ensures Runs(s, before, u) && Runs(u, more, t) && NeverForgets(more, node)
    ensures node in u.db.nodes && node in t.db.nodes && !StaysPut(u.db, t.db, node)
  {
    var looked := Step(s, a);
    OneStepMore(s, [], s, a);
    assert [] + [a] == [a];
    assert looked.db == s.db && looked.handlers[q] == s.handlers[q];
    assert CanSave(looked, q);
    var first;
    first, u := SavesItsAddress(looked, q);
    RunsConcat(s, [a], looked, first, u);
    before := [a] + first;
    more, t := SavesItsAddress(u, a.request);
  }

  /** And such clashes are reached: two first joins of one node with two tokens. */
  lemma OverlappingRequestsMoveANode(me: string, row: Row, arriving: Arriving, first: string, second: string)
    returns (before: seq<Action>, s: System, more: seq<Action>, t: System)
    requires DescribesANode(arriving) && arriving.node != me && first != second
    requires row.overlayIp != Some(first) && row.overlayIp != Some(second)
    ensures Runs(Fresh(me, row), before, s) && Runs(s, more, t) && NeverForgets(more, arriving.node)
    ensures arriving.node in s.db.nodes && s.db.nodes[arriving.node].overlayIp == Some(first)
    ensures arriving.node in t.db.nodes && t.db.nodes[arriving.node].overlayIp == Some(second)
  {
    var found, saves;
    before, found := BothLookedUp(me, row, arriving, first, second);
    assert CanSave(found, 0) && CanSave(found, 1);
    saves, s := SavesItsAddress(found, 0);
    RunsConcat(Fresh(me, row), before, found, saves, s);
    before := before + saves;
    more, t := SavesItsAddress(s, 1);
  }

  /** A known node with a third token looks itself up. */
  lemma LooksUpAgain(s: System, arriving: Arriving, overlayIp: string) returns (actions: seq<Action>, t: System)
    requires DescribesANode(arriving) && arriving.node in s.db.nodes && s.db.self != Some(arriving.node)
    requires "c" !in s.minted && Free(s.db, overlayIp) && 2 !in s.handlers && 2 !in s.replies
    ensures Runs(s, actions, t)
    ensures t.db.nodes == s.db.nodes && t.db.self == s.db.self
    ensures t.handlers == s.handlers[2 := Handler(
                                       Found, "c", Enrolment(overlayIp, [], 1, None), arriving,
                                       Some(s.db.nodes[arriving.node]), "")]
    ensures forall q :: q != 2 && CanSave(s, q) ==> CanSave(t, q)
    ensures MaySpend(t.db, "c", arriving.node)
  {
    var a, b, c := Mint("c", overlayIp, [], 1), Begin(2, "c", arriving, 0), Next(2);
    var u := Step(s, a);
    var v := Step(u, b);
    t := Step(v, c);
    OneStepMore(s, [], s, a);
    OneStepMore(s, [a], u, b);
    OneStepMore(s, [a] + [b], v, c);
    assert [] + [a] == [a];
    actions := [a] + [b] + [c];
    assert t.handlers[2].known == Some(s.db.nodes[arriving.node]);
    assert forall n, ip :: Taken(t.db, n, ip) == Taken(s.db, n, ip);
  }

  /** The first of two requests has saved, and a third has found the row it saved. */
  lemma ThirdFindsTheRow(
    me: string, row: Row, arriving: Arriving, first: string, second: string, third: string)
    returns (actions: seq<Action>, s: System)
    requires DescribesANode(arriving) && arriving.node != me && first != second && third != first && third != second
    requires row.overlayIp != Some(first) && row.overlayIp != Some(second) && row.overlayIp != Some(third)
    ensures Runs(Fresh(me, row), actions, s)
    ensures CanSave(s, 1) && s.handlers[1].arriving == arriving && AddressOf(s.handlers[1]) == second
    ensures CanSave(s, 2) && s.handlers[2].arriving == arriving && AddressOf(s.handlers[2]) == first
    ensures s.handlers[2].known.Some?
  {
    hide Runs, Step, DescribesANode, Free;
    var found, saves, joined;
    actions, found := BothLookedUp(me, row, arriving, first, second);
    assert CanSave(found, 0) && CanSave(found, 1);
    saves, joined := SavesItsAddress(found, 0);
    RunsConcat(Fresh(me, row), actions, found, saves, joined);
    actions := actions + saves;
    saves, s := LooksUpAgain(joined, arriving, third);
    RunsConcat(Fresh(me, row), actions, joined, saves, s);
    actions := actions + saves;
  }

  /** Nor is it enough that a request found the node's row: if the node moves before
      the request saves, the save moves it again. */
  lemma AStaleLookupMovesItBack(
    me: string, row: Row, arriving: Arriving, first: string, second: string, third: string)
    returns (before: seq<Action>, s: System, more: seq<Action>, t: System)
    requires DescribesANode(arriving) && arriving.node != me && first != second && third != first && third != second
    requires row.overlayIp != Some(first) && row.overlayIp != Some(second) && row.overlayIp != Some(third)
    ensures Runs(Fresh(me, row), before, s) && Runs(s, more, t) && NeverForgets(more, arriving.node)
    ensures 2 in s.handlers && s.handlers[2].arriving == arriving && s.handlers[2].known.Some?
    ensures t.handlers == s.handlers[2 := s.handlers[2].(phase := Saved)]
    ensures arriving.node in s.db.nodes && s.db.nodes[arriving.node].overlayIp == Some(second)
    ensures arriving.node in t.db.nodes && t.db.nodes[arriving.node].overlayIp == Some(first)
  {
    hide Runs;
    var looked, saves;
    before, looked := ThirdFindsTheRow(me, row, arriving, first, second, third);
    saves, s := SavesItsAddress(looked, 1);
    RunsConcat(Fresh(me, row), before, looked, saves, s);
    before := before + saves;
    more, t := SavesItsAddress(s, 2);
  }

  // ---------- and when a save is refused ----------

  /** A request has spent its token, and the token is withdrawn. */
  lemma SpentAndWithdrawn(me: string, row: Row, arriving: Arriving, overlayIp: string)
    returns (actions: seq<Action>, s: System)
    requires DescribesANode(arriving) && arriving.node != me && row.overlayIp != Some(overlayIp)
    ensures Runs(Fresh(me, row), actions, s)
    ensures s.db == Database(Some(me), map[], map[me := row], map[]) && s.replies == map[]
    ensures s.handlers == map[0 := Handler(Spent, "a", Enrolment(overlayIp, [], 1, None), arriving, None, "")]
    ensures s.minted == map["a" := overlayIp]
  {
    hide Runs;
    var s0 := Fresh(me, row);
    var s1 := Step(s0, Mint("a", overlayIp, [], 1));
    var s2 := Step(s1, Begin(0, "a", arriving, 0));
    var s3 := Step(s2, Next(0));
    var s4 := Step(s3, Next(0));
    s := Step(s4, Withdraw("a"));
    NoSteps(s0);
    OneStepMore(s0, [], s0, Mint("a", overlayIp, [], 1));
    actions := [] + [Mint("a", overlayIp, [], 1)];
    OneStepMore(s0, actions, s1, Begin(0, "a", arriving, 0));
    actions := actions + [Begin(0, "a", arriving, 0)];
    OneStepMore(s0, actions, s2, Next(0));
    actions := actions + [Next(0)];
    OneStepMore(s0, actions, s3, Next(0));
    actions := actions + [Next(0)];
    OneStepMore(s0, actions, s4, Withdraw("a"));
    actions := actions + [Withdraw("a")];
  }

  /** Its address is minted again, and another node is about to save it. */
  lemma MintedAgain(s: System, other: Arriving, overlayIp: string) returns (actions: seq<Action>, t: System)
    requires DescribesANode(other) && other.node !in s.db.nodes && Free(s.db, overlayIp)
    requires "b" !in s.minted && 1 !in s.handlers && 1 !in s.replies
    ensures Runs(s, actions, t) && t.db.nodes == s.db.nodes
    ensures t.handlers == s.handlers[1 := Handler(Found, "b", Enrolment(overlayIp, [], 1, None), other, None, "")]
    ensures CanSave(t, 1)
  {
    hide Runs;
    var a, b, c := Mint("b", overlayIp, [], 1), Begin(1, "b", other, 0), Next(1);
    var u := Step(s, a);
    var v := Step(u, b);
    t := Step(v, c);
    NoSteps(s);
    OneStepMore(s, [], s, a);
    OneStepMore(s, [] + [a], u, b);
    OneStepMore(s, [] + [a] + [b], v, c);
    actions := [] + [a] + [b] + [c];
  }

  /** Such a save is reached: a token withdrawn between its spending and the save
      frees an address that another node then takes. */
  lemma ARefusedSaveIsReached(me: string, row: Row, arriving: Arriving, other: Arriving, overlayIp: string)
    returns (actions: seq<Action>, s: System)
    requires DescribesANode(arriving) && DescribesANode(other)
    requires arriving.node != me && other.node != me && other.node != arriving.node
    requires row.overlayIp != Some(overlayIp)
    ensures Runs(Fresh(me, row), actions, s)
    ensures 0 in s.handlers && s.handlers[0].phase == Spent && s.handlers[0].arriving == arriving
    ensures Advance(s.db, s.handlers[0]) == Answers(s.db, Unreadable)
  {
    hide Runs;
    var withdrawn, again, more;
    actions, withdrawn := SpentAndWithdrawn(me, row, arriving, overlayIp);
    more, again := MintedAgain(withdrawn, other, overlayIp);
    RunsConcat(Fresh(me, row), actions, withdrawn, more, again);
    actions := actions + more;
    more, s := SavesItsAddress(again, 1);
    RunsConcat(Fresh(me, row), actions, again, more, s);
    actions := actions + more;
    assert s.db.nodes[other.node].overlayIp == Some(AddressOf(s.handlers[0]));
  }
}
