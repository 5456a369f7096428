/**
 * The Redis key scheme of the three toggles. A flag key
 * `{entity}:{action}:{subject}:{user}` marks that a user is engaged with a
 * subject; a counter key `{entity}:{action}_count:{subject}` holds the fast
 * per-subject count. The decoder `Decode` reads any key back, which proves
 * that the formats are injective and that the namespaces never collide.
 */
module Keys {
  import opened Wrappers
  import opened Text

  /** The three instantiations of the toggle: article like, article favourite, comment like. */
  datatype Kind = ArticleLike | ArticleFavorite | CommentLike

  datatype Key =
    | Flag(kind: Kind, subject: nat, user: nat)
    | Counter(kind: Kind, subject: nat)

  function Entity(k: Kind): string {
    match k
    case ArticleLike => "article"
    case ArticleFavorite => "article"
    case CommentLike => "comment"
  }

  function Action(k: Kind): string {
    match k
    case ArticleLike => "like"
    case ArticleFavorite => "favorite"
    case CommentLike => "like"
  }

  /** The `fmt.Sprintf` rendering of a key. */
  function Encode(key: Key): string {
    match key
    case Flag(k, s, u) => Entity(k) + ":" + Action(k) + ":" + Decimal(s) + ":" + Decimal(u)
    case Counter(k, s) => Entity(k) + ":" + Action(k) + "_count:" + Decimal(s)
  }

  function FlagKey(k: Kind, subject: nat, user: nat): string {
    Encode(Flag(k, subject, user))
  }

  function CountKey(k: Kind, subject: nat): string {
    Encode(Counter(k, subject))
  }

  /** The toggle kind whose flag keys start with `entity:action`. */
  function FlagKind(entity: string, action: string): (r: Option<Kind>)
    ensures r.Some? ==> Entity(r.value) == entity && Action(r.value) == action
  {
    if entity == "article" && action == "like" then Some(ArticleLike)
    else if entity == "article" && action == "favorite" then Some(ArticleFavorite)
    else if entity == "comment" && action == "like" then Some(CommentLike)
    else None
  }

  /** The toggle kind whose counter keys start with `entity:action`. */
  function CounterKind(entity: string, action: string): (r: Option<Kind>)
    ensures r.Some? ==> Entity(r.value) == entity && Action(r.value) + "_count" == action
  {
    if entity == "article" && action == "like_count" then Some(ArticleLike)
    else if entity == "article" && action == "favorite_count" then Some(ArticleFavorite)
    else if entity == "comment" && action == "like_count" then Some(CommentLike)
    else None
  }

  /** Reads the `subject:user` tail of a flag key. */
  function DecodeFlagTail(k: Kind, tail: string): Option<Key> {
    match SplitFirst(tail, ':')
    case None => None
    case Some((subject, user)) =>
      match (ParseDecimal(subject), ParseDecimal(user))
      case (Some(sv), Some(uv)) => Some(Flag(k, sv, uv))
      case _ => None
  }

  /** Reads the `subject` tail of a counter key. */
  function DecodeCounterTail(entity: string, action: string, tail: string): Option<Key> {
    match (CounterKind(entity, action), ParseDecimal(tail))
    case (Some(k), Some(sv)) => Some(Counter(k, sv))
    case _ => None
  }

  /** Reads a key of either shape back into its parts. */
  function Decode(s: string): Option<Key> {
    match SplitFirst(s, ':')
    case None => None
    case Some((entity, rest)) =>
      match SplitFirst(rest, ':')
      case None => None
      case Some((action, tail)) =>
        match FlagKind(entity, action)
        case Some(k) => DecodeFlagTail(k, tail)
        case None => DecodeCounterTail(entity, action, tail)
  }

  lemma KindNames(k: Kind)
    ensures ':' !in Entity(k) && ':' !in Action(k) && ':' !in Action(k) + "_count"
    ensures FlagKind(Entity(k), Action(k)) == Some(k)
    ensures FlagKind(Entity(k), Action(k) + "_count") == None
    ensures CounterKind(Entity(k), Action(k) + "_count") == Some(k)
  {
  }

  /** A flag key decodes to its kind, subject and user. */
  lemma DecodeFlag(k: Kind, s: nat, u: nat)
    ensures Decode(Encode(Flag(k, s, u))) == Some(Flag(k, s, u))
  {
    KindNames(k);
    DecimalHasNo(s, ':');
    DecimalHasNo(u, ':');
    ParseDecimalOfDecimal(s);
    ParseDecimalOfDecimal(u);
    var tail := Decimal(s) + [':'] + Decimal(u);
    var rest := Action(k) + [':'] + tail;
    FlagShape(k, s, u);
    SplitFirstJoin(Entity(k), ':', rest);
    SplitFirstJoin(Action(k), ':', tail);
    SplitFirstJoin(Decimal(s), ':', Decimal(u));
    assert SplitFirst(Encode(Flag(k, s, u)), ':') == Some((Entity(k), rest));
    assert SplitFirst(rest, ':') == Some((Action(k), tail));
    assert SplitFirst(tail, ':') == Some((Decimal(s), Decimal(u)));
    assert DecodeFlagTail(k, tail) == Some(Flag(k, s, u));
  }

  /** A counter key decodes to its kind and subject. */
  lemma DecodeCounter(k: Kind, s: nat)
    ensures Decode(Encode(Counter(k, s))) == Some(Counter(k, s))
  {
    KindNames(k);
    DecimalHasNo(s, ':');
    ParseDecimalOfDecimal(s);
    var action := Action(k) + "_count";
    var rest := action + [':'] + Decimal(s);
    var text := Encode(Counter(k, s));
    CounterShape(k, s);
    SplitFirstJoin(Entity(k), ':', rest);
    SplitFirstJoin(action, ':', Decimal(s));
    assert SplitFirst(text, ':') == Some((Entity(k), rest));
    assert SplitFirst(rest, ':') == Some((action, Decimal(s)));
    assert Decode(text) == DecodeCounterTail(Entity(k), action, Decimal(s));
  }

  lemma FlagShape(k: Kind, s: nat, u: nat)
    ensures Encode(Flag(k, s, u)) == Entity(k) + [':'] + (Action(k) + [':'] + (Decimal(s) + [':'] + Decimal(u)))
  {
  }

  lemma CounterShape(k: Kind, s: nat)
    ensures Encode(Counter(k, s)) == Entity(k) + [':'] + ((Action(k) + "_count") + [':'] + Decimal(s))
  {
  }


  /** Every key decodes to the parts it was built from. */
  lemma DecodeEncode(key: Key)
    ensures Decode(Encode(key)) == Some(key)
  {
    match key
    case Flag(k, s, u) => DecodeFlag(k, s, u);
    case Counter(k, s) => DecodeCounter(k, s);
  }

  /**
   * Two keys are the same string only when they are the same key: flags of
   * different (subject, user) pairs differ, the like, favourite and
   * comment-like namespaces are disjoint, and no flag key is a counter key.
   */
  lemma EncodeInjective(a: Key, b: Key)
    ensures Encode(a) == Encode(b) <==> a == b
  {
    if Encode(a) == Encode(b) {
      DecodeEncode(a);
      DecodeEncode(b);
    }
  }

  lemma FlagKeyInjective(k: Kind, s: nat, u: nat, k': Kind, s': nat, u': nat)
    ensures FlagKey(k, s, u) == FlagKey(k', s', u') <==> k == k' && s == s' && u == u'
  {
    EncodeInjective(Flag(k, s, u), Flag(k', s', u'));
  }

  lemma CountKeyInjective(k: Kind, s: nat, k': Kind, s': nat)
    ensures CountKey(k, s) == CountKey(k', s') <==> k == k' && s == s'
  {
    EncodeInjective(Counter(k, s), Counter(k', s'));
  }

  lemma FlagNotCount(k: Kind, s: nat, u: nat, k': Kind, s': nat)
    ensures FlagKey(k, s, u) != CountKey(k', s')
  {
    EncodeInjective(Flag(k, s, u), Counter(k', s'));
  }

  /** The literal shapes of the three handlers' keys. */
  lemma SmallDecimals()
    ensures Decimal(5) == "5" && Decimal(7) == "7" && Decimal(42) == "42"
  {
    assert Decimal(42) == Decimal(4) + [DigitChar(2)];
  }

  lemma ArticleLikeKeys()
    ensures FlagKey(ArticleLike, 42, 7) == "article:like:42:7"
    ensures CountKey(ArticleLike, 42) == "article:like_count:42"
  {
    SmallDecimals();
  }

  lemma ArticleFavoriteKeys()
    ensures FlagKey(ArticleFavorite, 42, 7) == "article:favorite:42:7"
    ensures CountKey(ArticleFavorite, 42) == "article:favorite_count:42"
  {
    SmallDecimals();
  }

  lemma CommentLikeKeys()
    ensures FlagKey(CommentLike, 5, 7) == "comment:like:5:7"
    ensures CountKey(CommentLike, 5) == "comment:like_count:5"
  {
    SmallDecimals();
  }

  lemma KeyShapes()
    ensures FlagKey(ArticleLike, 42, 7) == "article:like:42:7"
    ensures CountKey(ArticleLike, 42) == "article:like_count:42"
    ensures FlagKey(ArticleFavorite, 42, 7) == "article:favorite:42:7"
    ensures CountKey(ArticleFavorite, 42) == "article:favorite_count:42"
    ensures FlagKey(CommentLike, 5, 7) == "comment:like:5:7"
    ensures CountKey(CommentLike, 5) == "comment:like_count:5"
  {
    ArticleLikeKeys();
    ArticleFavoriteKeys();
    CommentLikeKeys();
  }

}
