/** The BLE link manager and state cache of volcano/api.py as pure step
    functions. Every BLE call is replaced by the outcome it produced: the
    bytes a read returned (or that it raised), whether a write raised, and
    what each connection attempt ended in. */
module Api {
  import opened Common
  import opened Codec

  /** The BLE client handle: absent, or present and reporting `up` as its own `is_connected`. */
  datatype Client = NoClient | Client(up: bool)

  /** The instance fields of the API object. */
  datatype ApiState = ApiState(
    flag: bool,          // _is_connected
    client: Client,      // _client
    hasCallback: bool,   // _disconnect_callback is set
    cur: real,           // _current_temperature, degrees
    target: real,        // _target_temperature, degrees
    heat: bool,          // _heat_on
    fan: bool)           // _fan_on

  /** What a GATT read produced: the bytes, or an exception. */
  datatype Read = Bytes(data: seq<byte>) | ReadFailed

  /** What a GATT write produced. */
  datatype Write = Written | WriteFailed

  /** The characteristics the API writes to. */
  datatype Characteristic = HeatOnChar | HeatOffChar | FanOnChar | FanOffChar | TargetTempChar | BrightnessChar

  /** One GATT write that was issued. */
  datatype Frame = Frame(dest: Characteristic, payload: seq<byte>)

  /** The outcome of an API call: its value or exception, the new state, the writes issued. */
  datatype Reply<+T> = Reply(result: Result<T>, state: ApiState, sent: seq<Frame>)

  /** The state right after construction. */
  function Init(): (s: ApiState)
    ensures !IsConnected(s) && s.client == NoClient
  {
    ApiState(false, NoClient, false, 0.0, 0.0, false, false)
  }

  /** `is_connected`: the flag, a client, and the client's own report must all agree. */
  predicate IsConnected(s: ApiState)
  {
    s.flag && s.client.Client? && s.client.up
  }

  /** The four cached device values are the same in both states. */
  predicate SameCache(s: ApiState, s': ApiState)
  {
    s'.cur == s.cur && s'.target == s.target && s'.heat == s.heat && s'.fan == s.fan
  }

  /** The link fields are the same in both states. */
  predicate SameLink(s: ApiState, s': ApiState)
  {
    s'.flag == s.flag && s'.client == s.client && s'.hasCallback == s.hasCallback
  }

  // ---------------------------------------------------------------------------
  // Notifications

  /** A current-temperature notification: two or more bytes replace the cached
      current temperature by the decoded value; a shorter payload is ignored. */
  function HandleTemperatureNotification(s: ApiState, data: seq<byte>): (s': ApiState)
    ensures |data| < 2 ==> s' == s
    ensures |data| >= 2 ==> s'.cur * 10.0 == (data[0] as int + 256 * (data[1] as int)) as real
    ensures SameLink(s, s') && s'.target == s.target && s'.heat == s.heat && s'.fan == s.fan
  {
    match DecodeTemperature(data)
    case None => s
    case Some(t) => s.(cur := t)
  }

  /** A status notification: a non-empty payload sets heat and fan from its
      first byte; an empty one is ignored. */
  function HandleStatusNotification(s: ApiState, data: seq<byte>): (s': ApiState)
    ensures |data| == 0 ==> s' == s
    ensures |data| >= 1 ==> (s'.heat <==> data[0] % 2 == 1) && (s'.fan <==> (data[0] / 2) % 2 == 1)
    ensures SameLink(s, s') && s'.cur == s.cur && s'.target == s.target
  {
    match DecodeStatus(data)
    case None => s
    case Some(st) => s.(heat := st.heat, fan := st.fan)
  }

  // ---------------------------------------------------------------------------
  // Connection lifecycle

  /** `set_disconnect_callback`. */
  function SetDisconnectCallback(s: ApiState): (s': ApiState)
    ensures s'.hasCallback && s'.flag == s.flag && s'.client == s.client && SameCache(s, s')
  {
    s.(hasCallback := true)
  }

  /** The outcome of `disconnect`: the new state, and whether the client's
      close was issued (only for a present client reporting itself connected). */
  datatype Disconnected = Disconnected(state: ApiState, closeIssued: bool)

  /** `disconnect` swallows every failure and always ends with the flag down
      and the client dropped; the cache is kept. */
  function Disconnect(s: ApiState): (r: Disconnected)
    ensures !r.state.flag && r.state.client == NoClient && !IsConnected(r.state)
    ensures r.closeIssued <==> s.client == Client(true)
    ensures SameCache(s, r.state) && r.state.hasCallback == s.hasCallback
  {
    Disconnected(s.(flag := false, client := NoClient), s.client.Client? && s.client.up)
  }

  /** `_handle_disconnect`, run by the client on an involuntary drop: the flag
      goes down, the client handle is kept, and the registered callback is
      called once (`callbacks` counts the calls). */
  function HandleDisconnect(s: ApiState): (r: (ApiState, nat))
    ensures !r.0.flag && !IsConnected(r.0)
    ensures r.0.client == s.client && r.0.hasCallback == s.hasCallback && SameCache(s, r.0)
    ensures r.1 == (if s.hasCallback then 1 else 0)
  {
    (s.(flag := false), if s.hasCallback then 1 else 0)
  }

  /** What one connection attempt ended in. */
  datatype Attempt =
    | NotFound   // no connectable device for the address: raises before a client is made
    | Failed     // a client was made and its connect raised
    | NotUp      // the client's connect returned, but the client does not report itself connected
    | Up         // connected (a failure to subscribe to notifications is swallowed)
  {
    /** The attempt raised an exception. */
    predicate Raises() { NotFound? || Failed? }
  }

  /** The outcome of `connect`: True/False or the exception, the new state,
      how many attempts were made and how many 2-second sleeps were taken. */
  datatype Connected = Connected(result: Result<bool>, state: ApiState, tried: nat, sleeps: nat)

  /** Attempts `i` up to (not including) `n` of the retry loop. */
  function ConnectFrom(s: ApiState, i: nat, n: nat, attempts: seq<Attempt>): (r: Connected)
    requires i <= n <= |attempts|
    ensures SameCache(s, r.state) && r.state.hasCallback == s.hasCallback
    ensures r.tried <= n - i
    ensures r.sleeps == if r.tried == 0 then 0 else r.tried - 1
    ensures r.result == Ok(true) ==>
      r.tried >= 1 && attempts[i + r.tried - 1] == Up &&
      (forall k :: i <= k < i + r.tried - 1 ==> attempts[k] != Up)
    ensures r.result != Ok(true) ==> r.tried == n - i && (forall k :: i <= k < n ==> attempts[k] != Up)
    ensures r.result.Err? ==> r.result.error == ConnectionError && i < n && attempts[n - 1].Raises()
    ensures i < n && attempts[n - 1].Raises() && (forall k :: i <= k < n ==> attempts[k] != Up) ==> r.result.Err?
    ensures r.result == Ok(false) ==> i == n || attempts[n - 1] == NotUp
    ensures r.result.Ok? && r.result.value ==> IsConnected(r.state)
    ensures r.result == Ok(false) && i < n ==> r.state.client == NoClient
    ensures r.result.Err? ==> !r.state.flag
    ensures i == n ==> r == Connected(Ok(false), s, 0, 0)
    decreases n - i
  {
    if i == n then Connected(Ok(false), s, 0, 0)
    else if attempts[i] == Up then
      Connected(Ok(true), s.(flag := true, client := Client(true)), 1, 0)
    else if i == n - 1 && attempts[i] == Failed then
      // the client was made and its connect raised: nothing cleans it up
      Connected(Err(ConnectionError), s.(flag := false, client := Client(false)), 1, 0)
    else if i == n - 1 && attempts[i] == NotFound then
      Connected(Err(ConnectionError), s.(flag := false), 1, 0)
    else
      // the attempt failed without ending the loop: the client is dropped,
      // and an attempt that raised also lowers the flag
      var next := if attempts[i] == NotUp then s.(client := NoClient) else s.(flag := false, client := NoClient);
      var rest := ConnectFrom(next, i + 1, n, attempts);
      Connected(rest.result, rest.state, rest.tried + 1, rest.sleeps + (if i == n - 1 then 0 else 1))
  }

  /** The number of iterations `range(maxRetries)` performs. */
  function Rounds(maxRetries: int): nat
  {
    if maxRetries < 0 then 0 else maxRetries
  }

  /** `connect(max_retries)`: at most `max_retries` attempts, sleeping only
      between attempts; True on the first attempt that comes up, an exception
      only when the last attempt raised, False otherwise. */
  function Connect(s: ApiState, maxRetries: int, attempts: seq<Attempt>): (r: Connected)
    requires |attempts| >= maxRetries
    ensures SameCache(s, r.state)
    ensures r.tried <= Rounds(maxRetries)
    ensures r.tried > 0 ==> r.sleeps == r.tried - 1
    ensures r.result == Ok(true) <==> exists k :: 0 <= k < Rounds(maxRetries) && attempts[k] == Up
    ensures r.result == Ok(true) ==>
      r.tried >= 1 && attempts[r.tried - 1] == Up && (forall k :: 0 <= k < r.tried - 1 ==> attempts[k] != Up)
    ensures r.result.Err? <==>
      Rounds(maxRetries) > 0 && attempts[Rounds(maxRetries) - 1].Raises() &&
      (forall k :: 0 <= k < Rounds(maxRetries) ==> attempts[k] != Up)
    ensures r.result.Err? ==> r.result.error == ConnectionError && !IsConnected(r.state)
    ensures r.result == Ok(true) ==> IsConnected(r.state)
    ensures r.result == Ok(false) && Rounds(maxRetries) > 0 ==> r.state.client == NoClient && !IsConnected(r.state)
    ensures Rounds(maxRetries) == 0 ==> r == Connected(Ok(false), s, 0, 0)
  {
    var r := ConnectFrom(s, 0, Rounds(maxRetries), attempts);
    var n := Rounds(maxRetries);
    assert r.result == Ok(true) ==> attempts[r.tried - 1] == Up;
    assert r.result.Err? ==> forall k :: 0 <= k < n ==> attempts[k] != Up;
    r
  }

  // ---------------------------------------------------------------------------
  // Reads

  /** A temperature read on a connected client: the decoded payload, or a
      connection error when the read raised or returned fewer than two bytes. */
  function ReadTemperature(read: Read): (r: Result<real>)
    ensures r.Ok? <==> read.Bytes? && |read.data| >= 2
    ensures r.Ok? ==> Some(r.value) == DecodeTemperature(read.data)
    ensures r.Err? ==> r.error == ConnectionError
  {
    match read
    case ReadFailed => Err(ConnectionError)
    case Bytes(data) =>
      match DecodeTemperature(data)
      case None => Err(ConnectionError)
      case Some(t) => Ok(t)
  }

  /** `get_current_temperature`: fails when not connected or when the read
      fails; on success caches and returns the decoded temperature. */
  function GetCurrentTemperature(s: ApiState, read: Read): (r: Reply<real>)
    ensures r.sent == []
    ensures r.result.Ok? <==> IsConnected(s) && read.Bytes? && |read.data| >= 2
    ensures r.result.Ok? ==>
      r.result.value * 10.0 == (read.data[0] as int + 256 * (read.data[1] as int)) as real &&
      r.state == s.(cur := r.result.value)
    ensures r.result.Err? ==> r.result.error == ConnectionError && r.state == s
  {
    if !IsConnected(s) then Reply(Err(ConnectionError), s, [])
    else match ReadTemperature(read)
      case Err(e) => Reply(Err(e), s, [])
      case Ok(t) => Reply(Ok(t), s.(cur := t), [])
  }

  /** `get_target_temperature`: as for the current temperature, caching the target. */
  function GetTargetTemperature(s: ApiState, read: Read): (r: Reply<real>)
    ensures r.sent == []
    ensures r.result.Ok? <==> IsConnected(s) && read.Bytes? && |read.data| >= 2
    ensures r.result.Ok? ==>
      r.result.value * 10.0 == (read.data[0] as int + 256 * (read.data[1] as int)) as real &&
      r.state == s.(target := r.result.value)
    ensures r.result.Err? ==> r.result.error == ConnectionError && r.state == s
  {
    if !IsConnected(s) then Reply(Err(ConnectionError), s, [])
    else match ReadTemperature(read)
      case Err(e) => Reply(Err(e), s, [])
      case Ok(t) => Reply(Ok(t), s.(target := t), [])
  }

  /** `get_hours_of_operation` / `get_minutes_of_operation`: a 2-byte
      little-endian counter, or a connection error. */
  function ReadCounter(s: ApiState, read: Read): (r: Result<nat>)
    ensures r.Ok? <==> IsConnected(s) && read.Bytes? && |read.data| >= 2
    ensures r.Ok? ==> r.value == read.data[0] as int + 256 * (read.data[1] as int)
    ensures r.Err? ==> r.error == ConnectionError
  {
    if !IsConnected(s) then Err(ConnectionError)
    else match read
      case ReadFailed => Err(ConnectionError)
      case Bytes(data) =>
        match UnpackU16(data)
        case None => Err(ConnectionError)
        case Some(v) => Ok(v)
  }

  /** The dictionary `get_device_state` returns. */
  datatype DeviceState = DeviceState(cur: real, target: real, heat: bool, fan: bool, connected: bool)

  /** `get_device_state`: a fresh status read overwrites heat and fan when it
      returns bytes; a failed or empty read falls back to the cache. */
  function GetDeviceState(s: ApiState, statusRead: Read): (r: Reply<DeviceState>)
    ensures r.sent == []
    ensures r.result.Ok? <==> IsConnected(s)
    ensures r.result.Err? ==> r.result.error == ConnectionError && r.state == s
    ensures r.result.Ok? ==>
      var d := r.result.value;
      && d == DeviceState(r.state.cur, r.state.target, r.state.heat, r.state.fan, true)
      && SameLink(s, r.state) && r.state.cur == s.cur && r.state.target == s.target
      && (statusRead.Bytes? && |statusRead.data| >= 1 ==>
            (d.heat <==> statusRead.data[0] % 2 == 1) && (d.fan <==> (statusRead.data[0] / 2) % 2 == 1))
      && (statusRead.ReadFailed? || statusRead.data == [] ==> r.state == s)
  {
    if !IsConnected(s) then Reply(Err(ConnectionError), s, [])
    else
      var s' := if statusRead.Bytes? then HandleStatusNotification(s, statusRead.data) else s;
      Reply(Ok(DeviceState(s'.cur, s'.target, s'.heat, s'.fan, s'.flag)), s', [])
  }

  // ---------------------------------------------------------------------------
  // Writes

  /** `set_target_temperature`: connection first, then range; the payload is
      the truncated tenths, and only a write that went through updates the
      cached target, to the requested value. */
  function SetTargetTemperature(s: ApiState, t: real, write: Write): (r: Reply<()>)
    ensures !IsConnected(s) ==> r == Reply(Err(ConnectionError), s, [])
    ensures IsConnected(s) && !TemperatureInRange(t) ==> r == Reply(Err(ValueError), s, [])
    ensures IsConnected(s) && TemperatureInRange(t) ==>
      |r.sent| == 1 && r.sent[0].dest == TargetTempChar &&
      UnpackU16(r.sent[0].payload) == Some(TruncatedTenths(t))
    ensures r.result.Ok? <==> IsConnected(s) && TemperatureInRange(t) && write == Written
    ensures r.result.Ok? ==> r.state == s.(target := t)
    ensures r.result.Err? ==> r.state == s
  {
    if !IsConnected(s) then Reply(Err(ConnectionError), s, [])
    else if !TemperatureInRange(t) then Reply(Err(ValueError), s, [])
    else
      var frame := Frame(TargetTempChar, EncodeTemperature(t));
      match write
      case WriteFailed => Reply(Err(ConnectionError), s, [frame])
      case Written => Reply(Ok(()), s.(target := t), [frame])
  }

  /** `set_screen_brightness`: connection first, then range, then one byte
      written; the cache is never touched. */
  function SetScreenBrightness(s: ApiState, brightness: int, write: Write): (r: Reply<()>)
    ensures r.state == s
    ensures !IsConnected(s) ==> r.result == Err(ConnectionError) && r.sent == []
    ensures IsConnected(s) && !BrightnessInRange(brightness) ==> r.result == Err(ValueError) && r.sent == []
    ensures IsConnected(s) && BrightnessInRange(brightness) ==>
      r.sent == [Frame(BrightnessChar, [brightness])] &&
      (r.result.Ok? <==> write == Written)
    ensures r.result.Err? && IsConnected(s) && BrightnessInRange(brightness) ==> r.result.error == ConnectionError
  {
    if !IsConnected(s) then Reply(Err(ConnectionError), s, [])
    else if !BrightnessInRange(brightness) then Reply(Err(ValueError), s, [])
    else
      var frame := Frame(BrightnessChar, EncodeBrightness(brightness));
      match write
      case WriteFailed => Reply(Err(ConnectionError), s, [frame])
      case Written => Reply(Ok(()), s, [frame])
  }

  /** The flag after the confirming status read of a heat or fan write: the
      masked bit of a non-empty read, the optimistic value when the read
      raised, and the cached value when the read returned no bytes. */
  function ConfirmedFlag(cached: bool, optimistic: bool, mask: bv8, statusRead: Read): bool
  {
    match statusRead
    case ReadFailed => optimistic
    case Bytes(data) => if |data| >= 1 then HasMask(data[0], mask) else cached
  }

  /** `set_heat_on` (`on`) and `set_heat_off` (`!on`): write the command byte,
      then confirm the heat flag with a status read; the fan flag is untouched. */
  function SetHeat(s: ApiState, on: bool, write: Write, statusRead: Read): (r: Reply<()>)
    ensures !IsConnected(s) ==> r == Reply(Err(ConnectionError), s, [])
    ensures IsConnected(s) ==>
      r.sent == [if on then Frame(HeatOnChar, [1]) else Frame(HeatOffChar, [0])]
    ensures r.result.Ok? <==> IsConnected(s) && write == Written
    ensures r.result.Err? ==> r.result.error == ConnectionError && r.state == s
    ensures r.result.Ok? ==>
      && SameLink(s, r.state) && r.state.fan == s.fan
      && r.state.cur == s.cur && r.state.target == s.target
      && (statusRead.ReadFailed? ==> r.state.heat == on)
      && (statusRead.Bytes? && |statusRead.data| >= 1 ==> (r.state.heat <==> statusRead.data[0] % 2 == 1))
      && (statusRead.Bytes? && |statusRead.data| == 0 ==> r.state.heat == s.heat)
  {
    if !IsConnected(s) then Reply(Err(ConnectionError), s, [])
    else
      var frame := if on then Frame(HeatOnChar, [1]) else Frame(HeatOffChar, [0]);
      match write
      case WriteFailed => Reply(Err(ConnectionError), s, [frame])
      case Written =>
        Reply(Ok(()), s.(heat := ConfirmedFlag(s.heat, on, HEAT_MASK, statusRead)), [frame])
  }

  /** `set_fan_on` (`on`) and `set_fan_off` (`!on`): as for heat, with the fan
      bit; the heat flag is untouched. */
  function SetFan(s: ApiState, on: bool, write: Write, statusRead: Read): (r: Reply<()>)
    ensures !IsConnected(s) ==> r == Reply(Err(ConnectionError), s, [])
    ensures IsConnected(s) ==>
      r.sent == [if on then Frame(FanOnChar, [1]) else Frame(FanOffChar, [0])]
    ensures r.result.Ok? <==> IsConnected(s) && write == Written
    ensures r.result.Err? ==> r.result.error == ConnectionError && r.state == s
    ensures r.result.Ok? ==>
      && SameLink(s, r.state) && r.state.heat == s.heat
      && r.state.cur == s.cur && r.state.target == s.target
      && (statusRead.ReadFailed? ==> r.state.fan == on)
      && (statusRead.Bytes? && |statusRead.data| >= 1 ==> (r.state.fan <==> (statusRead.data[0] / 2) % 2 == 1))
      && (statusRead.Bytes? && |statusRead.data| == 0 ==> r.state.fan == s.fan)
  {
    if !IsConnected(s) then Reply(Err(ConnectionError), s, [])
    else
      var frame := if on then Frame(FanOnChar, [1]) else Frame(FanOffChar, [0]);
      match write
      case WriteFailed => Reply(Err(ConnectionError), s, [frame])
      case Written =>
        Reply(Ok(()), s.(fan := ConfirmedFlag(s.fan, on, FAN_MASK, statusRead)), [frame])
  }

  // ---------------------------------------------------------------------------
  // Properties relating several calls

  /** A target written and then read back from a device that stores the
      payload reads as the requested temperature whenever that temperature
      is a whole number of tenths. */
  lemma {:induction false} SetThenGetTarget(s: ApiState, n: int)
    requires IsConnected(s)
    requires 400 <= n <= 2300
    ensures
      var w := SetTargetTemperature(s, n as real / 10.0, Written);
      && w.result.Ok?
      && w.state.target == n as real / 10.0
      && GetTargetTemperature(w.state, Bytes(w.sent[0].payload)).result == Ok(n as real / 10.0)
  {
    TenthsRoundTrip(n);
    var w := SetTargetTemperature(s, n as real / 10.0, Written);
    assert w.sent[0].payload == EncodeTemperature(n as real / 10.0);
  }

  /** After `disconnect`, every API call that needs the link fails with a
      connection error and issues no write. */
  lemma AfterDisconnectEverythingFails(s: ApiState, t: real, b: int, on: bool, w: Write, rd: Read)
    ensures
      var d := Disconnect(s).state;
      && SetTargetTemperature(d, t, w) == Reply(Err(ConnectionError), d, [])
      && SetHeat(d, on, w, rd) == Reply(Err(ConnectionError), d, [])
      && SetFan(d, on, w, rd) == Reply(Err(ConnectionError), d, [])
      && SetScreenBrightness(d, b, w) == Reply(Err(ConnectionError), d, [])
      && GetCurrentTemperature(d, rd).result == Err(ConnectionError)
      && GetDeviceState(d, rd).result == Err(ConnectionError)
  {
  }
}
