/**
 * The payment webhook: a verified Stripe event either grants the credits of one unpaid
 * transaction to its user, marking the transaction paid in the same store transaction, or
 * changes nothing. Replays of the same event therefore grant at most once.
 */
module StripeWebhook {
  import opened Wrappers
  import opened Accounts

  /** The application id a checkout session's metadata must carry. */
  const AppName := "MakeMySite.ai"
  const CheckoutCompleted := "checkout.session.completed"
  const PaymentSucceeded := "payment_intent.succeeded"
  /** The status sent back when the event cannot be parsed or verified. */
  const BadRequest := 400

  datatype Transaction = Transaction(userId: UserId, credits: int, isPaid: bool)

  /** A checkout session's metadata: string keys to string values. */
  type Metadata = map<string, string>

  /** What the handler reads of a verified event: its type, the metadata of the checkout session it
    * carries (for a completed checkout) and the payment intent's id (for a succeeded payment). */
  datatype Event = Event(eventType: string, sessionMetadata: Option<Metadata>, paymentIntentId: string)

  datatype Session = Session(metadata: Option<Metadata>)

  /** The answer of `stripe.checkout.sessions.list({ payment_intent })`: it threw, or the sessions found. */
  datatype SessionList = ListFailed | Listed(sessions: seq<Session>)

  /** The reply: a bare status, or the acknowledgement `{ received: true }`. */
  datatype Reply = Status(code: nat) | Received

  /** The two tables the webhook touches. */
  datatype Ledger = Ledger(transactions: map<string, Transaction>, users: map<UserId, User>)

  /** `metadata.key`: the value, or `undefined` when the key is absent. */
  function Field(md: Metadata, key: string): Option<string> {
    if key in md then Some(md[key]) else None
  }

  /** JavaScript truthiness of an optional string. */
  predicate Truthy(v: Option<string>) {
    v.Some? && v.value != ""
  }

  /** `session.metadata || {}`. */
  function MetadataOrEmpty(md: Option<Metadata>): Metadata {
    md.GetOr(map[])
  }

  /** `metadata.appId || metadata.appid`: the camel-case key wins unless it is absent or empty. */
  function EffectiveAppId(md: Metadata): (r: Option<string>)
    ensures "appId" in md && md["appId"] != "" ==> r == Some(md["appId"])
    ensures !("appId" in md && md["appId"] != "") ==> r == Field(md, "appid")
  {
    if Truthy(Field(md, "appId")) then Field(md, "appId") else Field(md, "appid")
  }

  /** The metadata names this application and a transaction. */
  predicate Eligible(md: Metadata) {
    EffectiveAppId(md) == Some(AppName) && Truthy(Field(md, "transactionId"))
  }

  /** A grant happens: eligible metadata naming an existing, unpaid transaction whose user exists
    * (otherwise the paired update fails and the store transaction is rolled back). */
  predicate Grants(l: Ledger, md: Metadata) {
    && Eligible(md)
    && md["transactionId"] in l.transactions
    && !l.transactions[md["transactionId"]].isPaid
    && l.transactions[md["transactionId"]].userId in l.users
  }

  /** The grant rule shared by both event paths. */
  function Grant(l: Ledger, md: Metadata): (r: Ledger)
    ensures r == l <==> !Grants(l, md)
    ensures r.transactions.Keys == l.transactions.Keys && r.users.Keys == l.users.Keys
    ensures Grants(l, md) ==>
      var tid := md["transactionId"];
      var tx := l.transactions[tid];
      && r.transactions[tid] == Transaction(tx.userId, tx.credits, true)
      && r.users[tx.userId].credits == l.users[tx.userId].credits + tx.credits
      && r.users[tx.userId].totalCreation == l.users[tx.userId].totalCreation
      && (forall t :: t in l.transactions && t != tid ==> r.transactions[t] == l.transactions[t])
      && (forall u :: u in l.users && u != tx.userId ==> r.users[u] == l.users[u])
  {
    if !Grants(l, md) then l
    else
      var tid := md["transactionId"];
      var tx := l.transactions[tid];
      Ledger(l.transactions[tid := tx.(isPaid := true)], AddCredits(l.users, tx.userId, tx.credits))
  }

  /** The effect of one parsed event on the tables: the `switch` on its type. */
  function ApplyEvent(l: Ledger, e: Event, sessions: SessionList): Ledger {
    if e.eventType == CheckoutCompleted then Grant(l, MetadataOrEmpty(e.sessionMetadata))
    else if e.eventType == PaymentSucceeded then
      match sessions
      case ListFailed => l
      case Listed(found) =>
        if found == [] then l else Grant(l, MetadataOrEmpty(found[0].metadata))
    else l
  }

  /** Delivering the same metadata again grants nothing more. */
  lemma GrantIdempotent(l: Ledger, md: Metadata)
    ensures Grant(Grant(l, md), md) == Grant(l, md)
  {
    if Grants(l, md) {
      assert !Grants(Grant(l, md), md);
    }
  }

  /** Delivering the same event twice has the effect of delivering it once. */
  lemma ReplayIsNoOp(l: Ledger, e: Event, sessions: SessionList)
    ensures ApplyEvent(ApplyEvent(l, e, sessions), e, sessions) == ApplyEvent(l, e, sessions)
  {
    if e.eventType == CheckoutCompleted {
      GrantIdempotent(l, MetadataOrEmpty(e.sessionMetadata));
    } else if e.eventType == PaymentSucceeded && sessions.Listed? && sessions.sessions != [] {
      GrantIdempotent(l, MetadataOrEmpty(sessions.sessions[0].metadata));
    }
  }

  /** A completed checkout and a succeeded payment whose first session carries the same metadata
    * have the same effect. */
  lemma BothPathsAgree(l: Ledger, md: Option<Metadata>, intent: string, others: seq<Session>, ignored: SessionList, ignoredMd: Option<Metadata>)
    ensures ApplyEvent(l, Event(CheckoutCompleted, md, intent), ignored)
         == ApplyEvent(l, Event(PaymentSucceeded, ignoredMd, intent), Listed([Session(md)] + others))
  {
  }

  /** A succeeded payment whose session lookup failed or found no session changes nothing. */
  lemma NoGrantWithoutSession(l: Ledger, e: Event, sessions: SessionList)
    requires e.eventType == PaymentSucceeded
    requires sessions == ListFailed || sessions == Listed([])
    ensures ApplyEvent(l, e, sessions) == l
  {
  }

  /** An event of any type other than the two handled ones changes nothing. */
  lemma UnhandledEventIsNoOp(l: Ledger, e: Event, sessions: SessionList)
    requires e.eventType != CheckoutCompleted && e.eventType != PaymentSucceeded
    ensures ApplyEvent(l, e, sessions) == l
  {
  }

  class PaymentStore {
    var transactions: map<string, Transaction>
    var users: map<UserId, User>

    function State(): Ledger
      reads this
    {
      Ledger(transactions, users)
    }

    constructor (initialTransactions: map<string, Transaction>, initialUsers: map<UserId, User>)
      ensures transactions == initialTransactions && users == initialUsers
    {
      transactions := initialTransactions;
      users := initialUsers;
    }

    /** One branch of the switch, from the metadata check to the paired update. */
    method GrantFromMetadata(metadata: Metadata)
      modifies this
      ensures State() == Grant(old(State()), metadata)
    {
      var transactionId := Field(metadata, "transactionId");
      var appId := EffectiveAppId(metadata);
      if !(appId == Some(AppName) && Truthy(transactionId)) {
        return;   // missing or invalid metadata
      }
      var tid := transactionId.value;
      if tid !in transactions {
        return;   // transaction not found
      }
      var transaction := transactions[tid];
      if transaction.isPaid {
        return;   // already processed
      }
      if transaction.userId !in users {
        return;   // the user update fails and the store transaction is rolled back
      }
      transactions := transactions[tid := transaction.(isPaid := true)];
      users := AddCredits(users, transaction.userId, transaction.credits);
    }

    /** `stripWebhook`: parse the event, dispatch on its type, acknowledge. */
    method StripWebhook(parsed: Option<Event>, sessions: SessionList) returns (reply: Reply)
      modifies this
      ensures parsed.None? ==> reply == Status(BadRequest) && State() == old(State())
      ensures parsed.Some? ==> reply == Received && State() == ApplyEvent(old(State()), parsed.value, sessions)
    {
      if parsed.None? {
        return Status(BadRequest);
      }
      var event := parsed.value;
      if event.eventType == CheckoutCompleted {
        GrantFromMetadata(MetadataOrEmpty(event.sessionMetadata));
      } else if event.eventType == PaymentSucceeded {
        if sessions.Listed? && sessions.sessions != [] {
          GrantFromMetadata(MetadataOrEmpty(sessions.sessions[0].metadata));
        }
      }
      reply := Received;
    }
  }
}
