/** The simulator's text telemetry: a comma-separated list of `key=value`
    pairs that sets speed, steering, mode, lights and camera, and can request
    a capture. Number conversion (Python's `float` and `int`) is abstract: a
    partial function given as a parameter. */
module RoverTelemetry {
  import opened Util

  const MAX_SPEED: real := 5.0

  /** `MODE_MANUAL`, the mode the simulator starts in. */
  const MODE_MANUAL: int := 0

  /** Python's `float(s)` and `int(s)`: `None` where Python raises. */
  type FloatParser = string -> Option<real>
  type IntParser = string -> Option<int>

  datatype RoverState = RoverState(
    speed: real,
    steering: real,
    mode: int,
    lights: bool,
    camera: bool,
    captureRequested: bool)

  const InitialRover := RoverState(0.0, 0.0, MODE_MANUAL, false, false, false)

  /* ---------------- Python string helpers ---------------- */

  /** The characters `str.strip()` removes: Python's whitespace. */
  predicate IsSpace(c: char)
  {
    || c == ' '
    || '\U{9}' <= c <= '\U{D}'
    || '\U{1C}' <= c <= '\U{1F}'
    || c == '\U{85}' || c == '\U{A0}' || c == '\U{1680}'
    || '\U{2000}' <= c <= '\U{200A}'
    || c == '\U{2028}' || c == '\U{2029}' || c == '\U{202F}' || c == '\U{205F}'
    || c == '\U{3000}'
  }

  function TrimStart(s: string): (r: string)
    ensures |r| <= |s| && r == s[|s| - |r|..]
    ensures forall i | 0 <= i < |s| - |r| :: IsSpace(s[i])
    ensures |r| > 0 ==> !IsSpace(r[0])
    decreases |s|
  {
    if |s| > 0 && IsSpace(s[0]) then TrimStart(s[1..]) else s
  }

  function TrimEnd(s: string): (r: string)
    ensures |r| <= |s| && r == s[..|r|]
    ensures forall i | |r| <= i < |s| :: IsSpace(s[i])
    ensures |r| > 0 ==> !IsSpace(r[|r| - 1])
    decreases |s|
  {
    if |s| > 0 && IsSpace(s[|s| - 1]) then TrimEnd(s[..|s| - 1]) else s
  }

  /** `str.strip()`: the text between the leading and the trailing
      whitespace. */
  function Strip(s: string): (r: string)
    ensures exists i, j | 0 <= i <= j <= |s| ::
      && r == s[i..j]
      && (forall k | 0 <= k < i :: IsSpace(s[k]))
      && (forall k | j <= k < |s| :: IsSpace(s[k]))
    ensures |r| > 0 ==> !IsSpace(r[0]) && !IsSpace(r[|r| - 1])
  {
    var t := TrimStart(s);
    var r := TrimEnd(t);
    var i := |s| - |t|;
    assert r == s[i..i + |r|];
    r
  }

  /** `str.lower()` on ASCII letters; other characters are left alone. */
  function LowerChar(c: char): (d: char)
    ensures 'A' <= c <= 'Z' ==> d as int == c as int + 32
    ensures !('A' <= c <= 'Z') ==> d == c
  {
    if 'A' <= c <= 'Z' then (c as int + 32) as char else c
  }

  function Lower(s: string): (r: string)
    ensures |r| == |s|
    ensures forall i | 0 <= i < |s| :: r[i] == LowerChar(s[i])
  {
    seq(|s|, i requires 0 <= i < |s| => LowerChar(s[i]))
  }

  /* ---------------- the key=value pairs ---------------- */

  /** The spellings of "yes": `lights`/`camera` accept them in any case,
      `capture` only exactly as written here. */
  const TRUTHY: set<string> := {"true", "1", "yes", "on"}

  const NUMERIC_KEYS: set<string> := {"speed", "steering", "battery", "temperature"}

  const KNOWN_KEYS: set<string> :=
    {"speed", "steering", "battery", "temperature", "mode", "lights", "camera", "capture"}

  /** A pair with a `=`, split at the first one, both sides stripped. */
  function KeyValue(pair: string): (r: Option<(string, string)>)
    ensures r.None? <==> '=' !in pair
    ensures r.Some? ==> exists k, v ::
      && pair == k + "=" + v
      && '=' !in k
      && r.value == (Strip(k), Strip(v))
  {
    match SplitOnce(pair, '=')
    case None => None
    case Some((k, v)) =>
      assert pair == k + "=" + v;
      Some((Strip(k), Strip(v)))
  }

  /** What one pair asks for, once its number (if any) is converted.
      `Fails` is a conversion that raises; `battery` and `temperature` are
      converted but never applied, so a successful one is `Ignored`. */
  datatype Item =
    | Ignored
    | Speed(x: real)
    | Steering(x: real)
    | Mode(m: int)
    | Lights(on: bool)
    | Camera(on: bool)
    | Capture
    | Fails

  /** The effect of a pair with key `key` and value `value`, key by key. */
  predicate ItemForKey(key: string, value: string, it: Item, toFloat: FloatParser, toInt: IntParser)
  {
    && (key == "speed" ==> it == (if toFloat(value).Some? then Speed(toFloat(value).value) else Fails))
    && (key == "steering" ==> it == (if toFloat(value).Some? then Steering(toFloat(value).value) else Fails))
    && (key == "battery" || key == "temperature" ==> it == (if toFloat(value).Some? then Ignored else Fails))
    && (key == "mode" ==> it == (if toInt(value).Some? then Mode(toInt(value).value) else Fails))
    && (key == "lights" ==> it == Lights(Lower(value) in TRUTHY))
    && (key == "camera" ==> it == Camera(Lower(value) in TRUTHY))
    && (key == "capture" ==> it == (if value in TRUTHY then Capture else Ignored))
    && (key !in KNOWN_KEYS ==> it == Ignored)
  }

  /** The body of the `for pair in pairs` loop for a pair that has a `=`. */
  function ItemOfKey(key: string, value: string, toFloat: FloatParser, toInt: IntParser): (it: Item)
    ensures ItemForKey(key, value, it, toFloat, toInt)
  {
    if key in NUMERIC_KEYS then
      match toFloat(value)
      case None => Fails
      case Some(x) =>
        if key == "speed" then Speed(x) else if key == "steering" then Steering(x) else Ignored
    else if key == "mode" then
      match toInt(value)
      case None => Fails
      case Some(m) => Mode(m)
    else if key == "lights" then Lights(Lower(value) in TRUTHY)
    else if key == "camera" then Camera(Lower(value) in TRUTHY)
    else if key == "capture" && value in TRUTHY then Capture
    else Ignored
  }

  /** A pair stops the loop exactly when its key asks for a number and the
      value does not convert; every other pair lets the loop go on. */
  lemma FailsOnlyOnConversion(key: string, value: string, toFloat: FloatParser, toInt: IntParser)
    ensures ItemOfKey(key, value, toFloat, toInt) == Fails
        <==> (key in NUMERIC_KEYS && toFloat(value).None?)
             || (key == "mode" && toInt(value).None?)
  {
  }

  /** The body of the `for pair in pairs` loop for one pair: a pair without
      `=` is skipped. */
  function ItemOf(pair: string, toFloat: FloatParser, toInt: IntParser): (it: Item)
    ensures KeyValue(pair).None? ==> it == Ignored
    ensures KeyValue(pair).Some? ==> ItemForKey(KeyValue(pair).value.0, KeyValue(pair).value.1, it, toFloat, toInt)
  {
    match KeyValue(pair)
    case None => Ignored
    case Some((key, value)) => ItemOfKey(key, value, toFloat, toInt)
  }

  /** The pairs of a message: every piece between commas, empty ones
      included. */
  function Items(text: string, toFloat: FloatParser, toInt: IntParser): (items: seq<Item>)
    ensures |items| == |Split(text, ',')|
    ensures forall i | 0 <= i < |items| :: items[i] == ItemOf(Split(text, ',')[i], toFloat, toInt)
  {
    var pairs := Split(text, ',');
    seq(|pairs|, i requires 0 <= i < |pairs| => ItemOf(pairs[i], toFloat, toInt))
  }

  /** The fields collected so far (the `values` dictionary, for the keys that
      are applied) and the capture flag. */
  datatype Collected = Collected(
    speed: Option<real>,
    steering: Option<real>,
    mode: Option<int>,
    lights: Option<bool>,
    camera: Option<bool>,
    capture: bool)

  const NothingCollected := Collected(None, None, None, None, None, false)

  /** Outcome of the loop over the pairs: `consumed` pairs were processed
      before the loop stopped; `ok` is false when a conversion raised. */
  datatype Scan = Scan(collected: Collected, consumed: nat, ok: bool)

  function Collect(acc: Collected, it: Item): Collected
  {
    match it
    case Speed(x) => acc.(speed := Some(x))
    case Steering(x) => acc.(steering := Some(x))
    case Mode(m) => acc.(mode := Some(m))
    case Lights(on) => acc.(lights := Some(on))
    case Camera(on) => acc.(camera := Some(on))
    case Capture => acc.(capture := true)
    case _ => acc
  }

  /** The loop over the pairs, stopping at the first conversion that
      raises. */
  function ScanItems(items: seq<Item>, acc: Collected): (r: Scan)
    ensures r.consumed <= |items|
    ensures r.ok <==> r.consumed == |items|
    ensures Fails !in items[..r.consumed]
    ensures !r.ok ==> items[r.consumed] == Fails
    ensures r.ok <==> Fails !in items
    ensures r.collected.capture <==> acc.capture || Capture in items[..r.consumed]
    decreases |items|
  {
    if |items| == 0 then Scan(acc, 0, true)
    else if items[0] == Fails then Scan(acc, 0, false)
    else
      var rest := ScanItems(items[1..], Collect(acc, items[0]));
      assert items[..1 + rest.consumed] == [items[0]] + items[1..][..rest.consumed];
      Scan(rest.collected, 1 + rest.consumed, rest.ok)
  }

  /** The update of the rover fields from what was collected. */
  function Apply(st: RoverState, c: Collected): RoverState
  {
    RoverState(
      if c.speed.Some? then c.speed.value / 100.0 * MAX_SPEED else st.speed,
      if c.steering.Some? then c.steering.value / 100.0 else st.steering,
      if c.mode.Some? then c.mode.value else st.mode,
      if c.lights.Some? then c.lights.value else st.lights,
      if c.camera.Some? then c.camera.value else st.camera,
      st.captureRequested)
  }

  /** The text telemetry step of `receive_data`: parse only when the text
      holds both `,` and `=`; apply the collected fields only when no
      conversion raised; the capture flag is set as soon as its pair is
      seen, whatever happens after. */
  function ParseTelemetry(st: RoverState, text: string,
                          toFloat: FloatParser, toInt: IntParser): (r: RoverState)
    ensures !(',' in text && '=' in text) ==> r == st
    ensures Fails in Items(text, toFloat, toInt) ==> r == st.(captureRequested := r.captureRequested)
    ensures r.captureRequested <==>
      || st.captureRequested
      || (&& ',' in text && '=' in text
          && Capture in Items(text, toFloat, toInt)[..IndexOf(Items(text, toFloat, toInt), Fails)])
  {
    if ',' in text && '=' in text then
      var items := Items(text, toFloat, toInt);
      var scan := ScanItems(items, NothingCollected);
      assert scan.consumed == IndexOf(items, Fails);
      var capture := st.captureRequested || scan.collected.capture;
      if !scan.ok then st.(captureRequested := capture)
      else Apply(st, scan.collected).(captureRequested := capture)
    else st
  }

  /* ---------------- reference: the last pair of each kind ---------------- */

  function OrElse<T>(a: Option<T>, b: Option<T>): Option<T>
  {
    if a.Some? then a else b
  }

  /** The value picked from the LAST item that has one. */
  function Last<T>(items: seq<Item>, pick: Item -> Option<T>): (r: Option<T>)
    ensures r.None? <==> forall i | 0 <= i < |items| :: pick(items[i]).None?
    decreases |items|
  {
    if |items| == 0 then None
    else if pick(items[|items| - 1]).Some? then pick(items[|items| - 1])
    else
      var r := Last(items[..|items| - 1], pick);
      assert forall i | 0 <= i < |items| - 1 :: items[..|items| - 1][i] == items[i];
      r
  }

  function SpeedOf(it: Item): Option<real> { if it.Speed? then Some(it.x) else None }
  function SteeringOf(it: Item): Option<real> { if it.Steering? then Some(it.x) else None }
  function ModeOf(it: Item): Option<int> { if it.Mode? then Some(it.m) else None }
  function LightsOf(it: Item): Option<bool> { if it.Lights? then Some(it.on) else None }
  function CameraOf(it: Item): Option<bool> { if it.Camera? then Some(it.on) else None }

  /** The last item of a non-empty list is the last of its tail, or else the
      head's. */
  lemma {:induction false} LastCons<T>(items: seq<Item>, pick: Item -> Option<T>)
    requires |items| > 0
    ensures Last(items, pick) == OrElse(Last(items[1..], pick), pick(items[0]))
    decreases |items|
  {
    if |items| > 1 && pick(items[|items| - 1]).None? {
      var init := items[..|items| - 1];
      LastCons(init, pick);
      assert init[1..] == items[1..][..|items[1..]| - 1];
      assert init[0] == items[0];
    }
  }

  /** A scan that meets no failing conversion collects, for each field, the
      value of the last item of its kind. */
  lemma {:induction false} ScanCollectsLast(items: seq<Item>, acc: Collected)
    requires Fails !in items
    ensures var c := ScanItems(items, acc).collected;
      && c.speed == OrElse(Last(items, SpeedOf), acc.speed)
      && c.steering == OrElse(Last(items, SteeringOf), acc.steering)
      && c.mode == OrElse(Last(items, ModeOf), acc.mode)
      && c.lights == OrElse(Last(items, LightsOf), acc.lights)
      && c.camera == OrElse(Last(items, CameraOf), acc.camera)
    decreases |items|
  {
    if |items| > 0 {
      assert items[0] in items;
      assert forall x | x in items[1..] :: x in items;
      ScanStep(items, acc);
      CollectPicks(acc, items[0]);
      ScanCollectsLast(items[1..], Collect(acc, items[0]));
      LastCons(items, SpeedOf);
      LastCons(items, SteeringOf);
      LastCons(items, ModeOf);
      LastCons(items, LightsOf);
      LastCons(items, CameraOf);
    }
  }

  lemma ScanStep(items: seq<Item>, acc: Collected)
    requires |items| > 0 && items[0] != Fails
    ensures ScanItems(items, acc).collected == ScanItems(items[1..], Collect(acc, items[0])).collected
  {
  }

  /** Collecting an item overrides exactly the field of its kind. */
  lemma CollectPicks(acc: Collected, it: Item)
    ensures Collect(acc, it).speed == OrElse(SpeedOf(it), acc.speed)
    ensures Collect(acc, it).steering == OrElse(SteeringOf(it), acc.steering)
    ensures Collect(acc, it).mode == OrElse(ModeOf(it), acc.mode)
    ensures Collect(acc, it).lights == OrElse(LightsOf(it), acc.lights)
    ensures Collect(acc, it).camera == OrElse(CameraOf(it), acc.camera)
  {
  }

  /** With every conversion succeeding, the collected fields are applied. */
  lemma ParseTelemetryApplies(st: RoverState, text: string,
                              toFloat: FloatParser, toInt: IntParser)
    requires ',' in text && '=' in text
    requires Fails !in Items(text, toFloat, toInt)
    ensures var r := ParseTelemetry(st, text, toFloat, toInt);
      r == Apply(st, ScanItems(Items(text, toFloat, toInt), NothingCollected).collected)
             .(captureRequested := r.captureRequested)
  {
  }

  /** The fields each follow the last item of their kind. */
  predicate FollowsLast(st: RoverState, items: seq<Item>, r: RoverState)
  {
    && r.speed == (match Last(items, SpeedOf) case None => st.speed case Some(x) => x / 100.0 * MAX_SPEED)
    && r.steering == (match Last(items, SteeringOf) case None => st.steering case Some(x) => x / 100.0)
    && r.mode == (match Last(items, ModeOf) case None => st.mode case Some(m) => m)
    && r.lights == (match Last(items, LightsOf) case None => st.lights case Some(b) => b)
    && r.camera == (match Last(items, CameraOf) case None => st.camera case Some(b) => b)
  }

  lemma ApplyFollowsLast(st: RoverState, items: seq<Item>, capture: bool)
    requires Fails !in items
    ensures FollowsLast(st, items, Apply(st, ScanItems(items, NothingCollected).collected).(captureRequested := capture))
  {
    ScanCollectsLast(items, NothingCollected);
  }

  /** With every conversion succeeding, each rover field follows the last
      pair that sets it, and keeps its value when no pair does. */
  lemma ParseTelemetryLastPairWins(st: RoverState, text: string,
                                   toFloat: FloatParser, toInt: IntParser)
    requires ',' in text && '=' in text
    requires Fails !in Items(text, toFloat, toInt)
    ensures FollowsLast(st, Items(text, toFloat, toInt), ParseTelemetry(st, text, toFloat, toInt))
  {
    var r := ParseTelemetry(st, text, toFloat, toInt);
    ParseTelemetryApplies(st, text, toFloat, toInt);
    ApplyFollowsLast(st, Items(text, toFloat, toInt), r.captureRequested);
  }

  /** `lights`/`camera` accept any case; `capture` is case-sensitive. */
  lemma TruthyCaseExamples(toFloat: FloatParser, toInt: IntParser)
    ensures ItemOfKey("lights", "TRUE", toFloat, toInt) == Lights(true)
    ensures ItemOfKey("camera", "On", toFloat, toInt) == Camera(true)
    ensures ItemOfKey("lights", "off", toFloat, toInt) == Lights(false)
    ensures ItemOfKey("capture", "TRUE", toFloat, toInt) == Ignored
    ensures ItemOfKey("capture", "yes", toFloat, toInt) == Capture
  {
    assert Lower("TRUE") == "true";
    assert Lower("On") == "on";
    assert Lower("off") == "off";
  }

  /** A capture command before a failing conversion still requests the
      capture, while the speed that follows it is not applied. */
  lemma CaptureSurvivesLaterFailure(x: real)
    ensures var scan := ScanItems([Capture, Fails, Speed(x)], NothingCollected);
      && !scan.ok && scan.consumed == 1
      && scan.collected.capture
      && scan.collected.speed.None?
  {
    var items := [Capture, Fails, Speed(x)];
    assert items[1..] == [Fails, Speed(x)];
    assert items[..1] == [Capture];
  }
}
