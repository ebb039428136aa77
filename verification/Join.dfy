/** The `join` handler of src/web/remote_node_rest_controller.rs: a node presents
    a token, the token is spent, its row is saved, and it is told its address.

    The handler is a sequence of database statements with nothing around them,
    so it can stop after any of them, and two handlers can interleave between
    any two. `Server` is the handler itself; `System` is any number of them at
    once, with tokens being minted and withdrawn and nodes forgotten meanwhile.
    A token is named by its secret, which is unique.
 */
module Join {
  import opened Text

  // ---------- the rows ----------

  datatype Enrolment = Enrolment(overlayIp: string, offers: seq<string>, expiresAt: int, usedBy: Option<string>)

  datatype Row = Row(name: string, publicKey: string, overlayIp: Option<string>, accepted: Option<seq<string>>,
      ca: Option<string>)

  /** `self`: the id of the row that is this node's own. */
  datatype Database = Database(
    self: Option<string>,
    enrolments: map<string, Enrolment>,
    nodes: map<string, Row>,
    grants: map<string, seq<string>>)

  /** The row that is this node's own is a row. */
  predicate WellFormed(db: Database) { db.self.Some? ==> db.self.value in db.nodes }

  /** What a node says about itself. */
  datatype Arriving = Arriving(node: string, name: string, publicKey: string, accepted: Option<seq<string>>,
      ca: Option<string>)

  /** `describes_a_node`. */
  predicate DescribesANode(a: Arriving) {
    && a.node != "" && Utf8Len(a.node) <= 64
    && (forall i :: 0 <= i < |a.node| ==>
          IsDigit(a.node[i]) || IsLower(a.node[i]) || IsUpper(a.node[i]) || a.node[i] == '-' || a.node[i] == '_')
    && a.name != "" && Utf8Len(a.name) <= 200
    && a.publicKey != "" && Utf8Len(a.publicKey) <= 200
  }

  datatype Reply =
    | Unauthorized
    | BadRequest
    | Conflict
    | Unavailable
    | Unreadable
    | Accepted(authority: string, overlayIp: string)

  // ---------- the statements ----------

  /** `enrolment::look_up`: an expired token is nothing to anybody. */
  function LookUp(db: Database, secret: string, now: int): Option<Enrolment> {
    if secret in db.enrolments && now < db.enrolments[secret].expiresAt then Some(db.enrolments[secret]) else None
  }

  function FindNode(db: Database, node: string): Option<Row> {
    if node in db.nodes then Some(db.nodes[node]) else None
  }

  predicate IsSelf(db: Database, node: string) { db.self == Some(node) && node in db.nodes }

  /** `enrolment::spend`: an unspent token is taken, and a token already spent by
      the same node is taken again. */
  predicate MaySpend(db: Database, secret: string, node: string) {
    secret in db.enrolments && (db.enrolments[secret].usedBy == None || db.enrolments[secret].usedBy == Some(node))
  }

  function Spend(db: Database, secret: string, node: string): Database
    requires MaySpend(db, secret, node)
  {
    db.(enrolments := db.enrolments[secret := db.enrolments[secret].(usedBy := Some(node))])
  }

  /** An address of another row, which the unique index on addresses refuses. */
  predicate Taken(db: Database, node: string, overlayIp: string) {
    exists other :: other in db.nodes && other != node && db.nodes[other].overlayIp == Some(overlayIp)
  }

  /** `network::save`: insert, or update all but whose row it is. */
  function Save(db: Database, node: string, row: Row): Database {
    db.(nodes := db.nodes[node := row])
  }

  function Grant(db: Database, node: string, offers: seq<string>): Database {
    db.(grants := db.grants[node := offers])
  }

  // ---------- one handler ----------

  datatype Phase = Looked | Found | Spent | Saved | Named | Granted

  /** A request in flight, with what it has read: `known` from `Found` on, `me`
      from `Named` on. */
  datatype Handler = Handler(phase: Phase, secret: string, enrolment: Enrolment, arriving: Arriving,
                             known: Option<Row>, me: string)

  /** A node that is already here keeps the address it has. */
  function AddressOf(h: Handler): string {
    if h.known.Some? && h.known.value.overlayIp.Some? then h.known.value.overlayIp.value else h.enrolment.overlayIp
  }

  /** The certificate authority it brings, or the one already recorded. */
  function CaOf(h: Handler): Option<string> {
    if h.arriving.ca.Some? && Trim(h.arriving.ca.value) != "" then h.arriving.ca
    else if h.known.Some? then h.known.value.ca else None
  }

  function RowOf(h: Handler): Row {
    Row(h.arriving.name, h.arriving.publicKey, Some(AddressOf(h)), h.arriving.accepted, CaOf(h))
  }

  /** What one statement does: it goes on, or it answers. */
  datatype Outcome = GoesOn(db: Database, handler: Handler) | Answers(db: Database, reply: Reply)

  function Advance(db: Database, h: Handler): Outcome {
    var node := h.arriving.node;
    match h.phase
    case Looked =>
      if IsSelf(db, node) then Answers(db, Conflict)
      else GoesOn(db, h.(phase := Found, known := FindNode(db, node)))
    case Found =>
      if MaySpend(db, h.secret, node) then GoesOn(Spend(db, h.secret, node), h.(phase := Spent))
      else Answers(db, Conflict)
    case Spent =>
      if Taken(db, node, AddressOf(h)) then Answers(db, Unreadable)
      else GoesOn(Save(db, node, RowOf(h)), h.(phase := Saved))
    case Saved =>
      if db.self.Some? then GoesOn(db, h.(phase := Named, me := db.self.value)) else Answers(db, Unavailable)
    case Named => GoesOn(Grant(db, node, h.enrolment.offers), h.(phase := Granted))
    case Granted => Answers(db, Accepted(h.me, AddressOf(h)))
  }

  /** The handler left alone for at most `steps` statements: the database it
      leaves, and its answer if it gets that far. */
  function Continue(db: Database, h: Handler, steps: nat): (Database, Option<Reply>)
    decreases steps
  {
    if steps == 0 then (db, None)
    else match Advance(db, h)
      case Answers(after, reply) => (after, Some(reply))
      case GoesOn(after, next) => Continue(after, next, steps - 1)
  }

  datatype Body = TooLarge | Malformed | Arrives(arriving: Arriving)

  lemma OneStatement(db: Database, h: Handler, steps: nat)
    requires steps > 0
    ensures Continue(db, h, steps) ==
            match Advance(db, h)
            case Answers(after, reply) => (after, Some(reply))
            case GoesOn(after, next) => Continue(after, next, steps - 1)
  {
  }

  function Arrival(secret: string, e: Enrolment, arriving: Arriving): Handler {
    Handler(Looked, secret, e, arriving, None, "")
  }

  const ALL_STEPS := 6

  /** A whole request, stopped after at most `steps` of the six statements that
      follow the reading of the token. */
  function Handle(db: Database, bearer: Option<string>, body: Body, now: int, steps: nat): (Database, Option<Reply>) {
    if bearer == None then (db, Some(Unauthorized))
    else if !body.Arrives? || !DescribesANode(body.arriving) then (db, Some(BadRequest))
    else match LookUp(db, bearer.value, now)
      case None => (db, Some(Unauthorized))
      case Some(e) => Continue(db, Arrival(bearer.value, e, body.arriving), steps)
  }

  /** The node that others join. */
  class Server {
    var self: Option<string>
    var enrolments: map<string, Enrolment>
    var nodes: map<string, Row>
    var grants: map<string, seq<string>>

    constructor (db: Database)
      ensures Db() == db
    {
      self, enrolments, nodes, grants := db.self, db.enrolments, db.nodes, db.grants;
    }

    function Db(): Database
      reads this
    {
      Database(self, enrolments, nodes, grants)
    }

    /** `join`, cut short after `steps` statements. */
    method Join(bearer: Option<string>, body: Body, now: int, steps: nat) returns (reply: Option<Reply>)
      modifies this
      ensures (Db(), reply) == Handle(old(Db()), bearer, body, now, steps)
    {
      if bearer == None {
        return Some(Unauthorized);
      }
      if !body.Arrives? || !DescribesANode(body.arriving) {
        return Some(BadRequest);
      }
      var secret, arriving := bearer.value, body.arriving;
      if !(secret in enrolments && now < enrolments[secret].expiresAt) {
        return Some(Unauthorized);
      }
      reply := Admit(secret, enrolments[secret], arriving, steps);
    }

    method Admit(secret: string, enrolment: Enrolment, arriving: Arriving, steps: nat) returns (reply: Option<Reply>)
      modifies this
      ensures (Db(), reply) == Continue(old(Db()), Arrival(secret, enrolment, arriving), steps)
    {
      if steps == 0 {
        return None;
      }
      var known := if arriving.node in nodes then Some(nodes[arriving.node]) else None;
      if known.Some? && self == Some(arriving.node) {
        return Some(Conflict);
      }
      if steps == 1 {
        return None;
      }
      if !(secret in enrolments
           && (enrolments[secret].usedBy == None || enrolments[secret].usedBy == Some(arriving.node))) {
        return Some(Conflict);
      }
      enrolments := enrolments[secret := enrolments[secret].(usedBy := Some(arriving.node))];
      if steps == 2 {
        return None;
      }
      var h := Handler(Spent, secret, enrolment, arriving, known, "");
      OneStatement(Db(), h, steps - 2);
      if exists other | other in nodes :: other != arriving.node && nodes[other].overlayIp == Some(AddressOf(h)) {
        return Some(Unreadable);
      }
      nodes := nodes[arriving.node := RowOf(h)];
      reply := Answer(h.(phase := Saved), steps - 3);
    }

    method Answer(h: Handler, steps: nat) returns (reply: Option<Reply>)
      requires h.phase == Saved
      modifies this
      ensures (Db(), reply) == Continue(old(Db()), h, steps)
    {
      if steps == 0 {
        return None;
      }
      if self == None {
        return Some(Unavailable);
      }
      var me := self.value;
      if steps == 1 {
        return None;
      }
      OneStatement(Db(), h.(phase := Named, me := me), steps - 1);
      grants := grants[h.arriving.node := h.enrolment.offers];
      if steps == 2 {
        return None;
      }
      return Some(Accepted(me, AddressOf(h)));
    }
  }

  // ---------- a crash, and the retry ----------

  /** What a whole request answers, said outright. */
  function Verdict(db: Database, secret: string, e: Enrolment, arriving: Arriving): Reply {
    var h := Arrival(secret, e, arriving).(known := FindNode(db, arriving.node));
    if IsSelf(db, arriving.node) || !MaySpend(db, secret, arriving.node) then Conflict
    else if Taken(db, arriving.node, AddressOf(h)) then Unreadable
    else if db.self == None then Unavailable
    else Accepted(db.self.value, AddressOf(h))
  }

  /** The databases a request leaves behind, however early it stops: nothing
      done, the token spent, the row saved as well, or the grant written too. */
  function Stopped(db: Database, secret: string, e: Enrolment, arriving: Arriving, done: nat): Database
    requires done >= 1 ==> MaySpend(db, secret, arriving.node)
  {
    var h := Arrival(secret, e, arriving).(known := FindNode(db, arriving.node));
    if done == 0 then db
    else if done == 1 then Spend(db, secret, arriving.node)
    else if done == 2 then Save(Spend(db, secret, arriving.node), arriving.node, RowOf(h))
    else Grant(Save(Spend(db, secret, arriving.node), arriving.node, RowOf(h)), arriving.node, e.offers)
  }

  /** A request stopped anywhere leaves one of them, and one that runs through
      answers its verdict. */
  lemma StoppedAnywhere(db: Database, secret: string, e: Enrolment, arriving: Arriving, steps: nat)
    returns (done: nat)
    ensures done >= 1 ==> MaySpend(db, secret, arriving.node) && !IsSelf(db, arriving.node)
    ensures done >= 2 ==> Verdict(db, secret, e, arriving) != Unreadable
    ensures var (after, reply) := Continue(db, Arrival(secret, e, arriving), steps);
            && after == Stopped(db, secret, e, arriving, done)
            && (steps >= ALL_STEPS ==> reply == Some(Verdict(db, secret, e, arriving)))
            && (steps >= ALL_STEPS && Verdict(db, secret, e, arriving).Accepted? ==> done >= 3)
            && (reply.Some? ==> reply == Some(Verdict(db, secret, e, arriving)))
  {
    var h0 := Arrival(secret, e, arriving);
    var node := arriving.node;
    done := 0;
    if steps == 0 { return; }
    OneStatement(db, h0, steps);
    if IsSelf(db, node) { return; }
    var h1 := h0.(phase := Found, known := FindNode(db, node));
    if steps == 1 { return; }
    OneStatement(db, h1, steps - 1);
    if !MaySpend(db, secret, node) { return; }
    done := 1;
    var h2, db2 := h1.(phase := Spent), Spend(db, secret, node);
    assert Taken(db2, node, AddressOf(h2)) == Taken(db, node, AddressOf(h2));
    if steps == 2 { return; }
    OneStatement(db2, h2, steps - 2);
    if Taken(db2, node, AddressOf(h2)) { return; }
    done := 2;
    var h3, db3 := h2.(phase := Saved), Save(db2, node, RowOf(h2));
    if steps == 3 { return; }
    OneStatement(db3, h3, steps - 3);
    if db.self == None || steps == 4 { return; }
    var h4 := h3.(phase := Named, me := db.self.value);
    OneStatement(db3, h4, steps - 4);
    done := 3;
    if steps == 5 { return; }
    OneStatement(Grant(db3, node, e.offers), h4.(phase := Granted), steps - 5);
  }

  lemma SaveKeepsOthers(db: Database, node: string, row: Row, overlayIp: string)
    ensures Taken(Save(db, node, row), node, overlayIp) == Taken(db, node, overlayIp)
  {
    var after := Save(db, node, row);
    forall other | other != node
      ensures other in after.nodes <==> other in db.nodes
      ensures other in after.nodes ==> after.nodes[other] == db.nodes[other]
    {
    }
  }

  /** Whatever an interrupted request left behind changes no verdict. */
  lemma VerdictAfterStop(db: Database, secret: string, e: Enrolment, arriving: Arriving, again: Arriving, done: nat)
    requires again.node == arriving.node && WellFormed(db)
    requires secret in db.enrolments && db.enrolments[secret] == e
    requires done >= 1 ==> MaySpend(db, secret, arriving.node) && !IsSelf(db, arriving.node)
    requires done >= 2 ==> Verdict(db, secret, e, arriving) != Unreadable
    ensures var left := Stopped(db, secret, e, arriving, done);
            && secret in left.enrolments && left.enrolments[secret].overlayIp == e.overlayIp
            && left.enrolments[secret].expiresAt == e.expiresAt
            && Verdict(left, secret, left.enrolments[secret], again) == Verdict(db, secret, e, arriving)
  {
    var node := arriving.node;
    if done >= 1 {
      var h := Arrival(secret, e, arriving).(known := FindNode(db, node));
      var db2 := Spend(db, secret, node);
      assert Taken(db2, node, AddressOf(h)) == Taken(db, node, AddressOf(h));
      if done >= 2 {
        SaveKeepsOthers(db2, node, RowOf(h), AddressOf(h));
        var db3 := Save(db2, node, RowOf(h));
        assert !IsSelf(db3, node);
        assert Taken(Grant(db3, node, e.offers), node, AddressOf(h)) == Taken(db3, node, AddressOf(h));
      }
    }
  }

  // ---------- what is answered ----------

  /** A node describing itself: an id of 1 to 64 letters, digits, hyphens and
      underscores, and a name and a key of 1 to 200 bytes. */
  predicate IsDescription(a: Arriving) {
    && 1 <= |a.node| <= 64
    && (forall i :: 0 <= i < |a.node| ==>
          'a' <= a.node[i] <= 'z' || 'A' <= a.node[i] <= 'Z' || '0' <= a.node[i] <= '9'
          || a.node[i] == '-' || a.node[i] == '_')
    && 1 <= Utf8Len(a.name) <= 200 && 1 <= Utf8Len(a.publicKey) <= 200
  }

  lemma DescriptionsAre(a: Arriving)
    ensures DescribesANode(a) <==> IsDescription(a)
  {
    hide Utf8Len;
    Utf8LenAtLeast(a.node);
    Utf8LenAtLeast(a.name);
    Utf8LenAtLeast(a.publicKey);
    NothingHasNoLength();
    if DescribesANode(a) || IsDescription(a) { Utf8LenAscii(a.node); }
  }

  lemma NothingHasNoLength()
    ensures Utf8Len("") == 0
  {
  }

  /** The address of a node that has one here, or else the one its token holds. */
  function Settled(db: Database, secret: string, node: string): string
    requires secret in db.enrolments
  {
    if node in db.nodes && db.nodes[node].overlayIp.Some? then db.nodes[node].overlayIp.value
    else db.enrolments[secret].overlayIp
  }

  /** Every answer a whole request can get, and exactly when: this node's own id and
      a token that another node spent are refused, the node's own spent token is not,
      and an address that another row has cannot be saved. */
  lemma AnswersExactly(db: Database, bearer: Option<string>, body: Body, now: int)
    requires WellFormed(db)
    ensures Handle(db, bearer, body, now, ALL_STEPS).1 ==
            if bearer == None then Some(Unauthorized)
            else if !body.Arrives? || !IsDescription(body.arriving) then Some(BadRequest)
            else
              var secret, node := bearer.value, body.arriving.node;
              if secret !in db.enrolments || db.enrolments[secret].expiresAt <= now then Some(Unauthorized)
              else
                var e, ip := db.enrolments[secret], Settled(db, secret, node);
                if db.self == Some(node) || (e.usedBy.Some? && e.usedBy.value != node) then Some(Conflict)
                else if exists other | other in db.nodes :: other != node && db.nodes[other].overlayIp == Some(ip)
                then Some(Unreadable)
                else if db.self == None then Some(Unavailable)
                else Some(Accepted(db.self.value, ip))
  {
    hide Advance, Continue, DescribesANode, IsDescription;
    if bearer.Some? && body.Arrives? {
      DescriptionsAre(body.arriving);
      if IsDescription(body.arriving) && LookUp(db, bearer.value, now).Some? {
        var e := db.enrolments[bearer.value];
        var _ := StoppedAnywhere(db, bearer.value, e, body.arriving, ALL_STEPS);
      }
    }
  }

  // ---------- what is recorded ----------

  /** The node's row says what the request said, with the certificate authority it
      brought unless that is missing or blank; and no other row is touched. */
  predicate Records(before: Database, after: Database, arriving: Arriving, overlayIp: string) {
    var node := arriving.node;
    && node in after.nodes
    && after.nodes[node].name == arriving.name
    && after.nodes[node].publicKey == arriving.publicKey
    && after.nodes[node].accepted == arriving.accepted
    && after.nodes[node].overlayIp == Some(overlayIp)
    && after.nodes[node].ca ==
         (if arriving.ca.Some? && !Blank(arriving.ca.value) then arriving.ca
          else if node in before.nodes then before.nodes[node].ca else None)
    && after.nodes.Keys == before.nodes.Keys + {node}
    && forall other :: other in before.nodes && other != node ==> after.nodes[other] == before.nodes[other]
  }

  lemma RowRecords(db: Database, h: Handler)
    requires h.known == FindNode(db, h.arriving.node)
    ensures Records(db, Save(db, h.arriving.node, RowOf(h)), h.arriving, AddressOf(h))
  {
    if h.arriving.ca.Some? { TrimIsEmpty(h.arriving.ca.value); }
  }

  lemma RecordsRows(before: Database, middle: Database, after: Database, last: Database, arriving: Arriving, ip: string)
    requires Records(middle, after, arriving, ip)
    requires before.nodes == middle.nodes && after.nodes == last.nodes
    ensures Records(before, last, arriving, ip)
  {
  }

  /** An accepted request: the token it presented was worth something and not another
      node's, and is now its own; its row is as it said; and it is told the address the
      node had, or else the token's, which is the one in the row. */
  lemma AcceptedIsRecorded(db: Database, secret: string, arriving: Arriving, now: int)
    ensures var (after, reply) := Handle(db, Some(secret), Arrives(arriving), now, ALL_STEPS);
            reply.Some? && reply.value.Accepted? ==>
              && DescribesANode(arriving) && db.self == Some(reply.value.authority) && !IsSelf(db, arriving.node)
              && secret in db.enrolments && now < db.enrolments[secret].expiresAt
              && (db.enrolments[secret].usedBy == None || db.enrolments[secret].usedBy == Some(arriving.node))
              && after.enrolments
                 == db.enrolments[secret := db.enrolments[secret].(usedBy := Some(arriving.node))]
              && Records(db, after, arriving, reply.value.overlayIp)
              && reply.value.overlayIp ==
                   (if arriving.node in db.nodes && db.nodes[arriving.node].overlayIp.Some?
                    then db.nodes[arriving.node].overlayIp.value else db.enrolments[secret].overlayIp)
              && after.grants == db.grants[arriving.node := db.enrolments[secret].offers]
  {
    hide Advance, Continue, Records, RowOf;
    if DescribesANode(arriving) && LookUp(db, secret, now).Some? {
      var e := db.enrolments[secret];
      var done := StoppedAnywhere(db, secret, e, arriving, ALL_STEPS);
      if Verdict(db, secret, e, arriving).Accepted? { StoppedRecords(db, secret, e, arriving, done); }
    }
  }

  lemma StoppedRecords(db: Database, secret: string, e: Enrolment, arriving: Arriving, done: nat)
    requires done >= 3 && MaySpend(db, secret, arriving.node)
    requires Verdict(db, secret, e, arriving).Accepted?
    ensures Records(db, Stopped(db, secret, e, arriving, done), arriving, Verdict(db, secret, e, arriving).overlayIp)
  {
    hide Records, RowOf, AddressOf;
    var h := Arrival(secret, e, arriving).(known := FindNode(db, arriving.node));
    var spent := Spend(db, secret, arriving.node);
    RowRecords(spent, h);
    RecordsRows(
      db, spent, Save(spent, arriving.node, RowOf(h)), Stopped(db, secret, e, arriving, done), arriving, AddressOf(h));
  }

  // ---------- and after a crash ----------

  /** Retrying after a crash. A request stops after any number of statements;
      the same node presents the same token again while it is worth something,
      saying perhaps other things about itself. The retry answers what the first
      request would have answered had it run through; and if that is an identity
      and an address, the row is as the retry said, with that address, the token is
      spent by this node and the grant is written. */
  lemma CrashThenRetry(db: Database, secret: string, arriving: Arriving, again: Arriving, now: int, later: int,
      steps: nat)
    requires WellFormed(db) && DescribesANode(arriving) && DescribesANode(again) && again.node == arriving.node
    requires LookUp(db, secret, now).Some? && LookUp(db, secret, later).Some?
    ensures var (_, wanted) := Handle(db, Some(secret), Arrives(arriving), now, ALL_STEPS);
            var (crashed, _) := Handle(db, Some(secret), Arrives(arriving), now, steps);
            var (after, reply) := Handle(crashed, Some(secret), Arrives(again), later, ALL_STEPS);
            && reply == wanted && reply.Some?
            && (reply.value.Accepted? ==>
                  && after.self == Some(reply.value.authority)
                  && Records(crashed, after, again, reply.value.overlayIp)
                  && secret in after.enrolments && after.enrolments[secret].usedBy == Some(again.node)
                  && again.node in after.grants && after.grants[again.node] == db.enrolments[secret].offers)
  {
    hide Advance, Continue, Records, RowOf;
    var e := db.enrolments[secret];
    var _ := StoppedAnywhere(db, secret, e, arriving, ALL_STEPS);
    var done := StoppedAnywhere(db, secret, e, arriving, steps);
    VerdictAfterStop(db, secret, e, arriving, again, done);
    var crashed := Stopped(db, secret, e, arriving, done);
    var e' := crashed.enrolments[secret];
    var done' := StoppedAnywhere(crashed, secret, e', again, ALL_STEPS);
    assert e'.offers == e.offers;
    if Verdict(crashed, secret, e', again).Accepted? { StoppedRecords(crashed, secret, e', again, done'); }
  }
}
