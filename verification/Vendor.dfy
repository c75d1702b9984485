// internal/cqappmiddleware/vendor.go: how an outcome at the vendor becomes an
// answer or a classified error, and httpx.Error as far as it matters here.
module Vendor {
  import opened Arith
  import opened Decimal
  import opened Money
  import opened Tokens

  // --------------------------------------------------------------- errors

  // The sentinels errors.Is is asked about.
  datatype Marker = ErrTransient | ErrRequestFault | DeadlineExceeded | Canceled

  // An error tree: a sentinel, some other leaf, an httpx.Error with its cause,
  // or fmt.Errorf with one or more %w verbs.
  datatype Err =
    | Sentinel(marker: Marker)
    | Leaf(text: string)
    | Http(code: HttpCode, retryAfter: int, cause: Err)
    | Wrap(parts: seq<Err>)

  datatype HttpCode = UpstreamUnavailable | UpstreamContract | UpstreamTimeout | Internal

  // errors.Is: the sentinel occurs somewhere in the tree.
  predicate Is(e: Err, m: Marker) {
    match e
    case Sentinel(k) => k == m
    case Leaf(_) => false
    case Http(_, _, cause) => Is(cause, m)
    case Wrap(parts) => exists p | p in parts :: Is(p, m)
  }

  // errors.As for *httpx.Error: the first one in pre-order.
  function AsHttp(e: Err): (h: Option<Err>)
    ensures h.Some? ==> h.value.Http?
  {
    match e
    case Sentinel(_) => None
    case Leaf(_) => None
    case Http(_, _, _) => Some(e)
    case Wrap(parts) => FirstHttp(parts)
  }

  function FirstHttp(parts: seq<Err>): (h: Option<Err>)
    ensures h.Some? ==> h.value.Http?
  {
    if parts == [] then None
    else
      var first := AsHttp(parts[0]);
      if first.Some? then first else FirstHttp(parts[1..])
  }

  function RetryAfterOf(e: Err): Option<int> {
    if AsHttp(e).None? then None else Some(AsHttp(e).value.retryAfter)
  }

  // The errors of a tree, each before its causes and those left to right.
  function Preorder(e: Err): seq<Err> {
    match e
    case Sentinel(_) => [e]
    case Leaf(_) => [e]
    case Http(_, _, cause) => [e] + Preorder(cause)
    case Wrap(parts) => [e] + PreorderOf(parts)
  }

  function PreorderOf(parts: seq<Err>): seq<Err> {
    if parts == [] then [] else Preorder(parts[0]) + PreorderOf(parts[1..])
  }

  // errors.Is finds a sentinel exactly when it occurs, however deep, and
  // errors.As the first httpx.Error there is.
  lemma {:induction false} TraversesTree(e: Err, m: Marker)
    ensures Is(e, m) <==> Sentinel(m) in Preorder(e)
    ensures IsFirstHttp(AsHttp(e), Preorder(e))
  {
    match e
    case Sentinel(_) =>
    case Leaf(_) =>
    case Http(_, _, cause) =>
      TraversesTree(cause, m);
      assert Preorder(e)[0] == e;
    case Wrap(parts) =>
      TraversesParts(parts, m);
      FirstHttpAfter(e, AsHttp(e), PreorderOf(parts));
  }

  predicate IsFirstHttp(h: Option<Err>, nodes: seq<Err>) {
    match h
    case None => forall x | x in nodes :: !x.Http?
    case Some(first) =>
      exists k | 0 <= k < |nodes| :: nodes[k] == first && first.Http? && forall j | 0 <= j < k :: !nodes[j].Http?
  }

  lemma FirstHttpAfter(e: Err, h: Option<Err>, nodes: seq<Err>)
    requires !e.Http? && IsFirstHttp(h, nodes)
    ensures IsFirstHttp(h, [e] + nodes)
  {
    FirstHttpJoined([e], h, nodes);
  }

  lemma FirstHttpJoined(before: seq<Err>, h: Option<Err>, nodes: seq<Err>)
    requires (forall x | x in before :: !x.Http?) && IsFirstHttp(h, nodes)
    ensures IsFirstHttp(h, before + nodes)
  {
    if h.Some? {
      var k :| 0 <= k < |nodes| && nodes[k] == h.value && forall j | 0 <= j < k :: !nodes[j].Http?;
      assert (before + nodes)[|before| + k] == h.value;
      forall j | 0 <= j < |before| + k ensures !(before + nodes)[j].Http? {
        assert (before + nodes)[j] == if j < |before| then before[j] else nodes[j - |before|];
      }
    }
  }

  lemma FirstHttpEarly(h: Option<Err>, nodes: seq<Err>, later: seq<Err>)
    requires h.Some? && IsFirstHttp(h, nodes)
    ensures IsFirstHttp(h, nodes + later)
  {
    var k :| 0 <= k < |nodes| && nodes[k] == h.value && forall j | 0 <= j < k :: !nodes[j].Http?;
    assert (nodes + later)[k] == h.value;
    assert forall j | 0 <= j < k :: (nodes + later)[j] == nodes[j];
  }

  lemma {:induction false} TraversesParts(parts: seq<Err>, m: Marker)
    ensures (exists p | p in parts :: Is(p, m)) <==> Sentinel(m) in PreorderOf(parts)
    ensures IsFirstHttp(FirstHttp(parts), PreorderOf(parts))
  {
    if parts != [] {
      TraversesTree(parts[0], m);
      TraversesParts(parts[1..], m);
      assert parts == [parts[0]] + parts[1..];
      var first := AsHttp(parts[0]);
      if first.Some? {
        FirstHttpEarly(first, Preorder(parts[0]), PreorderOf(parts[1..]));
      } else {
        FirstHttpJoined(Preorder(parts[0]), FirstHttp(parts[1..]), PreorderOf(parts[1..]));
      }
    }
  }

  function Transient(e: Err): Err {
    Wrap([Sentinel(ErrTransient), e])
  }

  function RequestFault(e: Err): Err {
    Wrap([Sentinel(ErrRequestFault), e])
  }

  // An error from outside the package carries neither classification marker.
  predicate Foreign(e: Err) {
    !Is(e, ErrTransient) && !Is(e, ErrRequestFault)
  }

  // ------------------------------------------------------------- outcomes

  // What one call can meet: a request that could not be built, no response, or
  // a response.
  datatype Reply =
    | Unsent(cause: Err)
    | NoResponse(err: Err, contextErr: Option<Err>)
    | Response(status: int, retryAfterHeader: string, body: Body)

  // A 201's body: unreadable or not JSON, or its three fields.
  datatype Body = Unreadable(cause: Err) | Fields(quoteId: string, rate: string, total: string)

  datatype Quote = Quote(quoteId: string, rate: Rat, total: Amount)

  const NO_QUOTE := Quote("", Rat(0, 1), Amount(Rat(0, 1), 0))

  // A Go (Quote, error) pair.
  datatype Answer = Answer(quote: Quote, err: Option<Err>)

  function Fail(e: Err): Answer {
    Answer(NO_QUOTE, Some(e))
  }

  const SECOND := 1_000_000_000

  // The Retry-After header in nanoseconds, in int64 arithmetic.
  function RetryAfter(header: string): (wait: int)
    ensures FitsInt64(wait)
  {
    if header == "" then 0
    else
      var secs := ParseInt64(header);
      if secs.None? || secs.value < 0 then 0 else Wrap64(secs.value * SECOND)
  }

  function TransportError(err: Err, contextErr: Option<Err>): Err {
    if Is(err, DeadlineExceeded) || (contextErr.Some? && Is(contextErr.value, DeadlineExceeded)) then
      Transient(Http(UpstreamTimeout, 0, err))
    else if Is(err, Canceled) then Http(UpstreamTimeout, 0, err)
    else Transient(Http(UpstreamUnavailable, 0, err))
  }

  // A 429, with the wait it asks for.
  function RateLimited(wait: int): Err {
    Transient(Http(UpstreamUnavailable, wait, Leaf("vendor rate limited us")))
  }

  function Translate(reply: Reply): Answer {
    match reply
    case Unsent(cause) => Fail(Http(Internal, 0, cause))
    case NoResponse(err, contextErr) => Fail(TransportError(err, contextErr))
    case Response(status, header, body) =>
      if status == 201 then Decode(body)
      else if status == 429 then
        Fail(RateLimited(RetryAfter(header)))
      else if status == 502 || status == 503 || status == 504 then
        Fail(Transient(Http(UpstreamUnavailable, 0, Leaf("vendor unavailable"))))
      else if status == 401 || status == 403 then
        Fail(Http(UpstreamUnavailable, 0, Leaf("vendor rejected api-key")))
      else if status == 400 then
        Fail(RequestFault(Http(UpstreamContract, 0, Leaf("vendor rejected a request we validated"))))
      else Fail(Http(UpstreamUnavailable, 0, Leaf("vendor returned an unexpected status")))
  }

  function BadBody(cause: Err): Answer {
    Fail(Http(UpstreamContract, 0, cause))
  }

  lemma BadBodyIsForeign(cause: Err)
    requires Foreign(cause)
    ensures Foreign(BadBody(cause).err.value)
  {
  }

  // The shape of a successful reply is checked; its figures are not recomputed.
  function Decode(body: Body): Answer {
    match body
    case Unreadable(cause) => BadBody(cause)
    case Fields(quoteId, rateRaw, totalRaw) =>
      if quoteId == "" then BadBody(Leaf("vendor response has no quoteId"))
      else
        var rateText := NumberText(rateRaw);
        if rateText.None? then BadBody(Leaf("vendor commissionRate is not a number"))
        else
          var rate := ParseDecimal(rateText.value);
          if !rate.Parsed? then BadBody(Wrap([Leaf("vendor commissionRate")]))
          else
            var totalText := NumberText(totalRaw);
            if totalText.None? then BadBody(Leaf("vendor totalCommission is not a number"))
            else
              var total := ParseDecimal(totalText.value);
              if !total.Parsed? then BadBody(Wrap([Leaf("vendor totalCommission")]))
              else Answer(Quote(quoteId, rate.value, Amount(total.value, total.places)), None)
  }

  // ------------------------------------------------------- classification

  // The errors a reply brings in from outside are foreign.
  predicate WellFormed(reply: Reply) {
    match reply
    case Unsent(cause) => Foreign(cause)
    case NoResponse(err, contextErr) => Foreign(err)
    case Response(_, _, body) => body.Unreadable? ==> Foreign(body.cause)
  }

  predicate TimedOut(reply: Reply) {
    reply.NoResponse?
    && (Is(reply.err, DeadlineExceeded)
        || (reply.contextErr.Some? && Is(reply.contextErr.value, DeadlineExceeded)))
  }

  // The request provably never reached the vendor's handler.
  predicate NeverHandled(reply: Reply) {
    || (reply.Response? && reply.status in {429, 502, 503, 504})
    || (reply.NoResponse? && !TimedOut(reply) && !Is(reply.err, Canceled))
  }

  predicate Decodable(body: Body) {
    body.Fields? && body.quoteId != ""
    && NumberText(body.rate).Some? && ParseDecimal(NumberText(body.rate).value).Parsed?
    && NumberText(body.total).Some? && ParseDecimal(NumberText(body.total).value).Parsed?
  }

  lemma WrapIs(m: Marker, k: Marker, e: Err)
    ensures Is(Wrap([Sentinel(m), e]), k) <==> m == k || Is(e, k)
  {
    var parts := [Sentinel(m), e];
    assert parts[0] in parts && parts[1] in parts;
    assert Is(Wrap(parts), k) <==> exists p | p in parts :: Is(p, k);
  }

  lemma DecodeClassified(body: Body)
    requires body.Unreadable? ==> Foreign(body.cause)
    ensures var a := Decode(body);
            && (a.err.None? <==> Decodable(body))
            && (a.err.Some? ==> Foreign(a.err.value) && a.quote == NO_QUOTE)
  {
    SingleWrap("vendor commissionRate");
    SingleWrap("vendor totalCommission");
    if Decode(body).err.Some? {
      BadBodyIsForeign(Decode(body).err.value.cause);
    }
  }

  lemma SingleWrap(text: string)
    ensures Foreign(Wrap([Leaf(text)]))
  {
  }

  lemma TransportClassified(err: Err, contextErr: Option<Err>)
    requires Foreign(err)
    ensures var e := TransportError(err, contextErr);
            && !Is(e, ErrRequestFault)
            && (Is(e, ErrTransient) <==>
                Is(err, DeadlineExceeded) || (contextErr.Some? && Is(contextErr.value, DeadlineExceeded))
                || !Is(err, Canceled))
  {
    WrapIs(ErrTransient, ErrTransient, Http(UpstreamTimeout, 0, err));
    WrapIs(ErrTransient, ErrRequestFault, Http(UpstreamTimeout, 0, err));
    WrapIs(ErrTransient, ErrTransient, Http(UpstreamUnavailable, 0, err));
    WrapIs(ErrTransient, ErrRequestFault, Http(UpstreamUnavailable, 0, err));
  }

  // Exactly the edge rejections, transport failures and timeouts are marked
  // transient; exactly a 400 is marked a request fault; exactly a decodable
  // 201 is no error.
  lemma Classification(reply: Reply)
    requires WellFormed(reply)
    ensures var err := Translate(reply).err;
            && (err.None? <==> reply.Response? && reply.status == 201 && Decodable(reply.body))
            && (err.Some? ==> (Is(err.value, ErrTransient) <==> NeverHandled(reply) || TimedOut(reply)))
            && (err.Some? ==> (Is(err.value, ErrRequestFault) <==> reply.Response? && reply.status == 400))
            && (err.Some? ==> Translate(reply).quote == NO_QUOTE)
  {
    hide Decode, TransportError, Decodable;
    match reply
    case Unsent(_) =>
    case NoResponse(err, contextErr) =>
      TransportClassified(err, contextErr);
    case Response(status, header, body) =>
      if status == 201 {
        DecodeClassified(body);
      } else {
        StatusClassified(status, header, body);
      }
  }

  // An edge rejection is marked transient, a 400 a request fault, and no other
  // status but 201 is marked at all.
  lemma StatusClassified(status: int, header: string, body: Body)
    requires status != 201
    ensures var a := Translate(Response(status, header, body));
            && a.err.Some? && a.quote == NO_QUOTE
            && (Is(a.err.value, ErrTransient) <==> status in {429, 502, 503, 504})
            && (Is(a.err.value, ErrRequestFault) <==> status == 400)
  {
    hide RetryAfter;
    var e := Translate(Response(status, header, body)).err.value;
    if e.Wrap? {
      WrapIs(e.parts[0].marker, ErrTransient, e.parts[1]);
      WrapIs(e.parts[0].marker, ErrRequestFault, e.parts[1]);
    }
  }

  lemma AsHttpOfMarked(m: Marker, e: Err)
    requires e.Http?
    ensures AsHttp(Wrap([Sentinel(m), e])) == Some(e)
  {
    var parts := [Sentinel(m), e];
    assert parts[1..] == [e] && [e][1..] == [];
    assert FirstHttp([e]) == AsHttp(e);
    assert FirstHttp(parts) == FirstHttp(parts[1..]);
  }

  // Every failure renders as an httpx.Error through the marker around it: a
  // timeout exactly for a call that timed out or was given up, a contract
  // breach exactly for a 400 or an undecodable 201. Only a 429 brings the
  // vendor's own wait to the backoff.
  lemma RenderedFailure(reply: Reply)
    requires Translate(reply).err.Some?
    ensures var h := AsHttp(Translate(reply).err.value);
            && h.Some?
            && (h.value.code == UpstreamTimeout <==>
                TimedOut(reply) || (reply.NoResponse? && Is(reply.err, Canceled)))
            && (h.value.code == UpstreamContract <==> reply.Response? && reply.status in {201, 400})
            && (h.value.code == Internal <==> reply.Unsent?)
            && h.value.retryAfter ==
               if reply.Response? && reply.status == 429 then RetryAfter(reply.retryAfterHeader) else 0
  {
    hide Is, NumberText, ParseDecimal, RetryAfter;
    var e := Translate(reply).err.value;
    if e.Wrap? {
      AsHttpOfMarked(e.parts[0].marker, e.parts[1]);
      assert e == Wrap([e.parts[0], e.parts[1]]);
    }
  }

  // The header's seconds are exact below the int64 bound, and never otherwise.
  // Anything but a count of seconds asks for no wait.
  lemma RetryAfterUnusable(header: string)
    requires ParseInt64(header).None? || ParseInt64(header).value <= 0
    ensures RetryAfter(header) == 0
  {
  }

  lemma RetryAfterExact(header: string, secs: int)
    requires ParseInt64(header) == Some(secs) && 0 <= secs
    ensures RetryAfter(header) == secs * SECOND <==> secs <= 9_223_372_036
  {
  }
}
