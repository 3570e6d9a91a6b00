/** Game settings as the two request handlers read and clamp them: total
    player count, undercover count and round limit (a limit of zero or less
    means no limit). */
module Settings {
  import opened Basics

  datatype Settings = Settings(totalPlayers: int, undercover: int, maxRounds: int)

  /** The request body as parsed integers; `None` is a missing key (app.py)
      or a value `parseInt` cannot read (server.js). */
  datatype Request = Request(totalPlayers: Option<int>, undercover: Option<int>, maxRounds: Option<int>)

  const DefaultTotal: int := 4
  const DefaultUndercover: int := 1
  const DefaultMaxRounds: int := 5

  /** `settings.get(key, default)`: only a missing key takes the default. */
  function OrDefault(v: Option<int>, d: int): (r: int)
    ensures v.Some? ==> r == v.value
    ensures v.None? ==> r == d
  {
    match v
    case Some(x) => x
    case None => d
  }

  /** `parseInt(...) || default`: a missing, unreadable or zero value takes the default. */
  function OrDefaultIfFalsy(v: Option<int>, d: int): (r: int)
    ensures v.Some? && v.value != 0 ==> r == v.value
    ensures v.None? || v.value == 0 ==> r == d
  {
    match v
    case Some(x) => if x == 0 then d else x
    case None => d
  }

  /** `int(settings.get(key, default))`.  It reads every request as
      server.js does except one holding an explicit 0, which app.py keeps
      and server.js replaces by the default. */
  function ReadPy(req: Request): (s: Settings)
    ensures s == ReadJs(req) <==> req.totalPlayers != Some(0) && req.undercover != Some(0) && req.maxRounds != Some(0)
  {
    Settings(OrDefault(req.totalPlayers, DefaultTotal),
             OrDefault(req.undercover, DefaultUndercover),
             OrDefault(req.maxRounds, DefaultMaxRounds))
  }

  /** `parseInt(settings.key, 10) || default`.  In server.js a round limit
      of 0 cannot be requested: it reads as 5. */
  function ReadJs(req: Request): (s: Settings)
    ensures s.totalPlayers != 0 && s.undercover != 0 && s.maxRounds != 0
    ensures req.maxRounds == Some(0) ==> s.maxRounds == DefaultMaxRounds
  {
    Settings(OrDefaultIfFalsy(req.totalPlayers, DefaultTotal),
             OrDefaultIfFalsy(req.undercover, DefaultUndercover),
             OrDefaultIfFalsy(req.maxRounds, DefaultMaxRounds))
  }

  /** app.py reads each field as given and takes the default only for a
      missing key. */
  lemma ReadPyFields(req: Request)
    ensures req.totalPlayers.Some? ==> ReadPy(req).totalPlayers == req.totalPlayers.value
    ensures req.undercover.Some? ==> ReadPy(req).undercover == req.undercover.value
    ensures req.maxRounds.Some? ==> ReadPy(req).maxRounds == req.maxRounds.value
    ensures req.totalPlayers.None? ==> ReadPy(req).totalPlayers == DefaultTotal
    ensures req.undercover.None? ==> ReadPy(req).undercover == DefaultUndercover
    ensures req.maxRounds.None? ==> ReadPy(req).maxRounds == DefaultMaxRounds
  {
  }

  /** server.js reads each non-zero field as given and takes the default
      for a missing, unreadable or zero one. */
  lemma ReadJsFields(req: Request)
    ensures req.totalPlayers.Some? && req.totalPlayers.value != 0 ==> ReadJs(req).totalPlayers == req.totalPlayers.value
    ensures req.undercover.Some? && req.undercover.value != 0 ==> ReadJs(req).undercover == req.undercover.value
    ensures req.maxRounds.Some? && req.maxRounds.value != 0 ==> ReadJs(req).maxRounds == req.maxRounds.value
    ensures req.totalPlayers == None || req.totalPlayers == Some(0) ==> ReadJs(req).totalPlayers == DefaultTotal
    ensures req.undercover == None || req.undercover == Some(0) ==> ReadJs(req).undercover == DefaultUndercover
    ensures req.maxRounds == None || req.maxRounds == Some(0) ==> ReadJs(req).maxRounds == DefaultMaxRounds
  {
  }

  /** The request that spells out a setting reads back as that setting in
      app.py, and in server.js when no field is 0. */
  lemma ReadRoundTrip(s: Settings)
    ensures ReadPy(Request(Some(s.totalPlayers), Some(s.undercover), Some(s.maxRounds))) == s
    ensures s.totalPlayers != 0 && s.undercover != 0 && s.maxRounds != 0 ==>
              ReadJs(Request(Some(s.totalPlayers), Some(s.undercover), Some(s.maxRounds))) == s
  {
  }

  /** An empty request plays four players, one undercover, five rounds. */
  lemma EmptyRequest()
    ensures ReadPy(Request(None, None, None)) == Settings(4, 1, 5)
    ensures ReadJs(Request(None, None, None)) == Settings(4, 1, 5)
  {
  }

  /** A requested round limit of 0 means no limit in app.py and five
      rounds in server.js. */
  lemma ZeroRoundLimit(req: Request)
    requires req.maxRounds == Some(0)
    ensures ReadPy(req).maxRounds == 0 && ReadJs(req).maxRounds == DefaultMaxRounds
  {
  }

  /** The player-count bounds shared by both handlers. */
  function ClampTotal(t: int): (r: int)
    ensures 3 <= r <= 10
    ensures 3 <= t <= 10 ==> r == t
  {
    var t1 := if t < 3 then 3 else t;
    if t1 > 10 then 10 else t1
  }

  /** The round-limit bound shared by both handlers. */
  function ClampRounds(r: int): (c: int)
    ensures c <= 20
    ensures r <= 20 ==> c == r
    ensures c <= 0 <==> r <= 0
  {
    if r > 20 then 20 else r
  }

  /** Asking for more players never yields fewer. */
  lemma ClampTotalMonotone(a: int, b: int)
    requires a <= b
    ensures ClampTotal(a) <= ClampTotal(b)
  {
  }

  /** Asking for a higher limit never yields a lower one. */
  lemma ClampRoundsMonotone(a: int, b: int)
    requires a <= b
    ensures ClampRounds(a) <= ClampRounds(b)
  {
  }

  /** Too few players are raised to 3 and too many lowered to 10; a limit
      above 20 becomes 20.  These follow from the range, the in-range
      identity and monotonicity alone. */
  lemma ClampValuesOutOfRange(t: int, r: int)
    ensures t < 3 ==> ClampTotal(t) == 3
    ensures t > 10 ==> ClampTotal(t) == 10
    ensures r > 20 ==> ClampRounds(r) == 20
  {
    if t < 3 {
      ClampTotalMonotone(t, 3);
    }
    if t > 10 {
      ClampTotalMonotone(10, t);
    }
    if r > 20 {
      ClampRoundsMonotone(20, r);
    }
  }

  /** The validation in app.py.  `num_undercover >= total_players / 2` is a
      float comparison, `2 * u >= t` on integers. */
  function ClampPy(s: Settings): (c: Settings)
    ensures c.totalPlayers == ClampTotal(s.totalPlayers) && c.maxRounds == ClampRounds(s.maxRounds)
    ensures 3 <= c.totalPlayers <= 10
    ensures 1 <= c.undercover && 2 * c.undercover <= c.totalPlayers
    ensures 3 <= s.totalPlayers <= 10 ==> c.totalPlayers == s.totalPlayers
    ensures 1 <= s.undercover && 2 * s.undercover < c.totalPlayers ==> c.undercover == s.undercover
    ensures s.undercover < 1 ==> c.undercover == 1
    ensures 1 <= s.undercover && 2 * s.undercover >= c.totalPlayers ==>
              c.undercover <= s.undercover && 2 * (c.undercover + 1) > c.totalPlayers
    ensures c.maxRounds <= 20 && (s.maxRounds <= 20 ==> c.maxRounds == s.maxRounds)
    ensures c.maxRounds <= 0 <==> s.maxRounds <= 0
  {
    var t := ClampTotal(s.totalPlayers);
    var u0 := if s.undercover < 1 then 1 else s.undercover;
    var u1 := if 2 * u0 >= t then t / 2 else u0;
    var u := if u1 < 1 then 1 else u1;
    Settings(t, u, ClampRounds(s.maxRounds))
  }

  /** The validation in server.js, which always leaves the civilians in the majority. */
  function ClampJs(s: Settings): (c: Settings)
    ensures c.totalPlayers == ClampTotal(s.totalPlayers) && c.maxRounds == ClampRounds(s.maxRounds)
    ensures 3 <= c.totalPlayers <= 10
    ensures 1 <= c.undercover && 2 * c.undercover < c.totalPlayers
    ensures 3 <= s.totalPlayers <= 10 ==> c.totalPlayers == s.totalPlayers
    ensures 1 <= s.undercover && 2 * s.undercover < c.totalPlayers ==> c.undercover == s.undercover
    ensures s.undercover < 1 ==> c.undercover == 1
    ensures 1 <= s.undercover && 2 * s.undercover >= c.totalPlayers ==>
              c.undercover == (if c.totalPlayers < 4 then 1 else c.totalPlayers / 2 - 1)
    ensures c.maxRounds <= 20 && (s.maxRounds <= 20 ==> c.maxRounds == s.maxRounds)
    ensures c.maxRounds <= 0 <==> s.maxRounds <= 0
  {
    var t := ClampTotal(s.totalPlayers);
    var u0 := if s.undercover < 1 then 1 else s.undercover;
    var u1 := if 2 * u0 >= t then t / 2 - 1 else u0;
    var u := if u1 < 1 then 1 else u1;
    Settings(t, u, ClampRounds(s.maxRounds))
  }

  /** Clamping a clamped setting changes nothing. */
  lemma ClampIdempotent(s: Settings)
    ensures ClampPy(ClampPy(s)) == ClampPy(s)
    ensures ClampJs(ClampJs(s)) == ClampJs(s)
  {
  }

  /** app.py can leave as many undercover players as civilians: four players
      with two undercover pass unchanged. */
  lemma ClampPyAllowsParity()
    ensures ClampPy(Settings(4, 2, 5)) == Settings(4, 2, 5)
    ensures ClampPy(Settings(4, 3, 5)) == Settings(4, 2, 5)
  {
  }

  /** The app.py validation as its comment describes it ("at least one more
      civilian than undercover"): the undercover count is lowered to the
      largest count that keeps the civilians in the majority. */
  function ClampPyIntended(s: Settings): (c: Settings)
    ensures c.totalPlayers == ClampTotal(s.totalPlayers) && c.maxRounds == ClampRounds(s.maxRounds)
    ensures 3 <= c.totalPlayers <= 10
    ensures 1 <= c.undercover && 2 * c.undercover < c.totalPlayers
    ensures 3 <= s.totalPlayers <= 10 ==> c.totalPlayers == s.totalPlayers
    ensures 1 <= s.undercover && 2 * s.undercover < c.totalPlayers ==> c.undercover == s.undercover
    ensures s.undercover < 1 ==> c.undercover == 1
    ensures 1 <= s.undercover && 2 * s.undercover >= c.totalPlayers ==> 2 * (c.undercover + 1) >= c.totalPlayers
    ensures c.maxRounds <= 20 && (s.maxRounds <= 20 ==> c.maxRounds == s.maxRounds)
    ensures c.maxRounds <= 0 <==> s.maxRounds <= 0
  {
    var t := ClampTotal(s.totalPlayers);
    var u0 := if s.undercover < 1 then 1 else s.undercover;
    var u := if 2 * u0 >= t then (t - 1) / 2 else u0;
    Settings(t, u, ClampRounds(s.maxRounds))
  }

  /** The intended validation agrees with app.py on every odd player count. */
  lemma IntendedAgreesOnOddTotals(s: Settings)
    requires ClampTotal(s.totalPlayers) % 2 == 1
    ensures ClampPyIntended(s) == ClampPy(s)
  {
  }

  /** When a request asks for too many undercover, server.js lowers the
      count to the largest that keeps the civilians in the majority for an
      even total or three players, but to one less than that for an odd
      total of five or more. */
  lemma JsLowersBelowLargest(s: Settings)
    requires 1 <= s.undercover && 2 * s.undercover >= ClampTotal(s.totalPlayers)
    ensures var t := ClampTotal(s.totalPlayers);
            ClampJs(s).undercover == if t % 2 == 1 && t >= 5 then ClampPyIntended(s).undercover - 1
                                     else ClampPyIntended(s).undercover
  {
  }

  /** Five players with three undercover requested: server.js plays with
      one undercover, app.py with two. */
  lemma FiveWithThree()
    ensures ClampJs(Settings(5, 3, 5)).undercover == 1
    ensures ClampPy(Settings(5, 3, 5)).undercover == 2
    ensures ClampPyIntended(Settings(5, 3, 5)).undercover == 2
  {
  }
}
