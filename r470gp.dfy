/**
 * The TP-Link R470GP router client: the `stok` session token, the host-table
 * fetch that unwraps records into a map keyed by hardware address, and the
 * per-record clean-up (`_unquote`, `_unique_name`, `host_is_deprecate`).
 *
 * HTTP is not modelled: each `_post` reply is a parameter, the empty map when
 * the request failed. `urllib.parse.unquote` is the parameter `unquote`, and
 * "now" is the parameter `now`, in microseconds on the clock of `Dates`.
 */
module R470GP {
  import opened Wrappers
  import opened Records
  import Dates

  /** The one exception the host-table fetch raises: `strptime` rejects a
      `connect_date`. */
  datatype Error = MalformedDate(date: string)

  /** The fields `_unquote` percent-decodes, in the order it visits them. */
  const DecodedKeys: seq<string> := [ConnectDateKey, ConnectTimeKey, SsidKey]

  /** Host names `_unique_name` treats as no name at all. */
  const Placeholders: set<string> := {"", "---", "anonymous"}

  /** A host that is not online stays reported for this many days after its
      `connect_date`. */
  const GraceDays: int := 7

  /** A value `_unquote` decodes: a non-empty string. */
  predicate Decodable(v: Value) {
    v.Text? && v.s != ""
  }

  /** `r` with the decodable values of the fields in `keys` passed through `unquote`. */
  function DecodedOn(r: Record, keys: set<string>, unquote: string -> string): (u: Record)
    ensures u.Keys == r.Keys
  {
    map k | k in r :: if k in keys && Decodable(r[k]) then Text(unquote(r[k].s)) else r[k]
  }

  /** What `_unquote` makes of a record. */
  function Unquoted(r: Record, unquote: string -> string): Record {
    DecodedOn(r, (set k | k in DecodedKeys), unquote)
  }

  /** `_unquote` leaves every field but the three decoded ones alone, decodes
      those that hold a non-empty string, and keeps strings strings. */
  lemma UnquotedFields(r: Record, unquote: string -> string)
    requires TextFields(r)
    ensures Unquoted(r, unquote).Keys == r.Keys
    ensures TextFields(Unquoted(r, unquote))
    ensures forall k :: k in r && k !in DecodedKeys ==> Unquoted(r, unquote)[k] == r[k]
    ensures forall k :: k in r && k in DecodedKeys ==>
      Unquoted(r, unquote)[k] == if r[k].s == "" then r[k] else Text(unquote(r[k].s))
  {
  }

  /** The first `i` keys `_unquote` visits. */
  function KeysBefore(i: int): set<string>
    requires 0 <= i <= |DecodedKeys|
  {
    set k | k in DecodedKeys[..i]
  }

  /** Decoding one more key is one more update of that key. */
  lemma DecodeOneMore(r: Record, keys: set<string>, key: string, unquote: string -> string)
    requires key !in keys
    ensures DecodedOn(r, keys + {key}, unquote) ==
      if key in r && Decodable(r[key]) then DecodedOn(r, keys, unquote)[key := Text(unquote(r[key].s))]
      else DecodedOn(r, keys, unquote)
  {
  }

  /** `_unquote`, visiting the three keys in turn and rewriting the record. */
  method Unquote(host: Record, unquote: string -> string) returns (r: Record)
    requires TextFields(host)
    ensures r == Unquoted(host, unquote)
  {
    r := host;
    var i := 0;
    while i < |DecodedKeys|
      invariant 0 <= i <= |DecodedKeys|
      invariant r == DecodedOn(host, KeysBefore(i), unquote)
    {
      var key := DecodedKeys[i];
      assert DecodedKeys[..i + 1] == DecodedKeys[..i] + [key];
      assert KeysBefore(i + 1) == KeysBefore(i) + {key};
      DecodeOneMore(host, KeysBefore(i), key, unquote);
      var value := if key in r then r[key] else Text("");
      if Decodable(value) {
        r := r[key := Text(unquote(value.s))];
      }
      i := i + 1;
    }
    assert DecodedKeys[..i] == DecodedKeys;
  }

  /** `_unique_name`: a host with a hardware address but a placeholder name is
      named after the address with its dashes dropped. */
  function UniqueName(r: Record): (n: Record)
    requires TextFields(r)
    ensures TextFields(n)
    ensures n.Keys == r.Keys || n.Keys == r.Keys + {HostnameKey}
    ensures forall k :: k in r && k != HostnameKey ==> n[k] == r[k]
  {
    var mac := GetText(r, MacKey);
    if mac == "" then r
    else if GetText(r, HostnameKey) in Placeholders then r[HostnameKey := Text(RemoveDashes(mac))]
    else r
  }

  /** Without a hardware address, or with a real name, the record is kept;
      otherwise the name becomes the address without dashes. */
  lemma UniqueNameRule(r: Record)
    requires TextFields(r)
    ensures GetText(r, MacKey) == "" ==> UniqueName(r) == r
    ensures GetText(r, HostnameKey) !in Placeholders ==> UniqueName(r) == r
    ensures GetText(r, MacKey) != "" && GetText(r, HostnameKey) in Placeholders ==>
      GetText(UniqueName(r), HostnameKey) == RemoveDashes(GetText(r, MacKey)) &&
      '-' !in GetText(UniqueName(r), HostnameKey)
  {
  }

  /** Naming a host twice names it as once. */
  lemma UniqueNameIdempotent(r: Record)
    requires TextFields(r)
    ensures UniqueName(UniqueName(r)) == UniqueName(r)
  {
    var mac := GetText(r, MacKey);
    var n := UniqueName(r);
    if mac != "" && GetText(r, HostnameKey) in Placeholders {
      var name := Text(RemoveDashes(mac));
      assert n == r[HostnameKey := name];
      assert GetText(n, MacKey) == mac && n[HostnameKey] == name;
      assert n[HostnameKey := name] == n;
    } else {
      assert n == r;
    }
  }

  /** `host_is_deprecate`: whether a host counts as gone. An online host never
      does; a host with no `connect_date` always does; otherwise it does once
      more than `GraceDays` have passed since midnight of that date. */
  function HostIsDeprecate(r: Record, now: int): (res: Result<bool, Error>)
    requires TextFields(r)
    ensures GetText(r, StateKey) == "online" ==> res == Ok(false)
    ensures GetText(r, StateKey) != "online" && GetText(r, ConnectDateKey) == "" ==> res == Ok(true)
    ensures res.Err? <==> GetText(r, StateKey) != "online" && GetText(r, ConnectDateKey) != ""
                          && Dates.ParseDate(GetText(r, ConnectDateKey)).None?
    ensures res.Err? ==> res.error == MalformedDate(GetText(r, ConnectDateKey))
    ensures res.Ok? && GetText(r, StateKey) != "online" && GetText(r, ConnectDateKey) != "" ==>
      var d := Dates.ParseDate(GetText(r, ConnectDateKey)).value;
      res.value <==> now - Dates.Midnight(d) > GraceDays * Dates.MicrosPerDay
  {
    if GetText(r, StateKey) == "online" then Ok(false)
    else
      var date := GetText(r, ConnectDateKey);
      if date == "" then Ok(true)
      else match Dates.ParseDate(date)
        case None => Err(MalformedDate(date))
        case Some(d) => Ok(now - Dates.Midnight(d) > GraceDays * Dates.MicrosPerDay)
  }

  /** The grace window is closed at seven days: a host whose date is exactly
      seven days old is kept, one a microsecond older is not. */
  lemma GraceBoundary(r: Record, d: Dates.Date)
    requires TextFields(r) && GetText(r, StateKey) != "online"
    requires Dates.ParseDate(GetText(r, ConnectDateKey)) == Some(d)
    ensures HostIsDeprecate(r, Dates.Midnight(d) + GraceDays * Dates.MicrosPerDay) == Ok(false)
    ensures HostIsDeprecate(r, Dates.Midnight(d) + GraceDays * Dates.MicrosPerDay + 1) == Ok(true)
  {
  }

  /** In calendar days: at midnight seven days after `connect_date` a host is
      still there, at midnight eight days after it is gone. */
  lemma GraceInDays(r: Record, d: Dates.Date)
    requires TextFields(r) && GetText(r, StateKey) != "online"
    requires Dates.ParseDate(GetText(r, ConnectDateKey)) == Some(d)
    ensures HostIsDeprecate(r, Dates.Midnight(Dates.AddDays(d, GraceDays))) == Ok(false)
    ensures HostIsDeprecate(r, Dates.Midnight(Dates.AddDays(d, GraceDays + 1))) == Ok(true)
  {
    Dates.OrdinalAddDays(d, GraceDays);
    Dates.OrdinalAddDays(d, GraceDays + 1);
  }

  /** `_filter`: decode, name, then classify on the decoded `connect_date`,
      storing the verdict under `is_deprecate`. */
  function Filter(r: Record, unquote: string -> string, now: int): (res: Result<Record, Error>)
    requires TextFields(r)
    ensures res.Ok? ==> TextFields(res.value) && GetText(res.value, MacKey) == GetText(r, MacKey)
  {
    UnquotedFields(r, unquote);
    var n := UniqueName(Unquoted(r, unquote));
    match HostIsDeprecate(n, now)
    case Err(e) => Err(e)
    case Ok(b) => Ok(n[IsDeprecateKey := Flag(b)])
  }

  /** `_filter` adds `is_deprecate`, computed on the decoded date, changes the
      name only as `_unique_name` does and every other field only as
      `_unquote` does; it raises exactly when the decoded date is malformed. */
  lemma FilterFields(r: Record, unquote: string -> string, now: int)
    requires TextFields(r)
    ensures Filter(r, unquote, now).Err? <==> HostIsDeprecate(Unquoted(r, unquote), now).Err?
    ensures Filter(r, unquote, now).Ok? ==>
      var f := Filter(r, unquote, now).value;
      var u := Unquoted(r, unquote);
      && f.Keys == UniqueName(u).Keys + {IsDeprecateKey}
      && f[IsDeprecateKey] == Flag(HostIsDeprecate(u, now).value)
      && (HostnameKey in f ==> f[HostnameKey] == UniqueName(u)[HostnameKey])
      && (forall k :: k in r && k != HostnameKey && k != IsDeprecateKey ==> f[k] == u[k])
  {
    UnquotedFields(r, unquote);
    var u := Unquoted(r, unquote);
    var n := UniqueName(u);
    DeprecateOnStateAndDate(n, u, now);
    assert Filter(r, unquote, now) ==
      match HostIsDeprecate(u, now)
      case Err(e) => Err(e)
      case Ok(b) => Ok(n[IsDeprecateKey := Flag(b)]);
  }

  /** `host_is_deprecate` looks only at `state` and `connect_date`. */
  lemma DeprecateOnStateAndDate(a: Record, b: Record, now: int)
    requires TextFields(a) && TextFields(b)
    requires GetText(a, StateKey) == GetText(b, StateKey)
    requires GetText(a, ConnectDateKey) == GetText(b, ConnectDateKey)
    ensures HostIsDeprecate(a, now) == HostIsDeprecate(b, now)
  {
  }

  /** `_filter` as the source runs it, on the record in place. */
  method FilterHost(host: Record, unquote: string -> string, now: int) returns (res: Result<Record, Error>)
    requires TextFields(host)
    ensures res == Filter(host, unquote, now)
  {
    var r := Unquote(host, unquote);
    UnquotedFields(host, unquote);
    r := UniqueName(r);
    var deprecated := HostIsDeprecate(r, now);
    if deprecated.Err? {
      return Err(deprecated.error);
    }
    r := r[IsDeprecateKey := Flag(deprecated.value)];
    return Ok(r);
  }

  /** The items of one wrapper object of the host table, in order: each
      wraps one record under a key of its own. */
  type Wrapper = seq<(string, Record)>

  /** The wrapped records of one wrapper object, in order. */
  function Unwrapped(w: Wrapper): (rs: seq<Record>)
    ensures |rs| == |w| && forall j :: 0 <= j < |w| ==> rs[j] == w[j].1
  {
    seq(|w|, j requires 0 <= j < |w| => w[j].1)
  }

  /** The records of a host table, wrapper after wrapper. */
  function Flatten(table: seq<Wrapper>): seq<Record> {
    if table == [] then [] else Flatten(table[..|table| - 1]) + Unwrapped(table[|table| - 1])
  }

  predicate AllText(rs: seq<Record>) {
    forall j :: 0 <= j < |rs| ==> TextFields(rs[j])
  }

  /** Every wrapped record has string text fields. */
  predicate TableText(table: seq<Wrapper>) {
    forall i, j :: 0 <= i < |table| && 0 <= j < |table[i]| ==> TextFields(table[i][j].1)
  }

  lemma {:induction false} FlattenText(table: seq<Wrapper>)
    requires TableText(table)
    ensures AllText(Flatten(table))
  {
    if table != [] {
      var n := |table| - 1;
      assert TableText(table[..n]);
      FlattenText(table[..n]);
      assert forall j :: 0 <= j < |table[n]| ==> TextFields(Unwrapped(table[n])[j]);
    }
  }

  function MacOf(r: Record): string
    requires TextFields(r)
  {
    GetText(r, MacKey)
  }

  /** A record filter that accepts every record whose text fields are
      strings and keeps them strings. */
  ghost predicate TextFilter(f: Record --> Result<Record, Error>) {
    forall r :: TextFields(r) ==>
      f.requires(r) && (f(r).Ok? ==> TextFields(f(r).value) && MacOf(f(r).value) == MacOf(r))
  }

  /** `_filter` with its decoder and clock fixed, as a function value. */
  function FilterWith(unquote: string -> string, now: int): (f: Record --> Result<Record, Error>)
    ensures TextFilter(f)
    ensures forall r :: TextFields(r) ==> f(r) == Filter(r, unquote, now)
  {
    r requires TextFields(r) => Filter(r, unquote, now)
  }

  /** Each record filtered by `f`, in order. */
  function FilterAll(rs: seq<Record>, f: Record --> Result<Record, Error>): (fs: seq<Result<Record, Error>>)
    requires AllText(rs) && TextFilter(f)
    ensures |fs| == |rs| && FilteredText(fs)
  {
    if rs == [] then [] else FilterAll(rs[..|rs| - 1], f) + [f(rs[|rs| - 1])]
  }

  lemma {:induction false} FilterAllAt(rs: seq<Record>, f: Record --> Result<Record, Error>)
    requires AllText(rs) && TextFilter(f)
    ensures forall j :: 0 <= j < |rs| ==> FilterAll(rs, f)[j] == f(rs[j])
  {
    if rs != [] {
      var n := |rs| - 1;
      FilterAllAt(rs[..n], f);
    }
  }

  lemma FilterAllSnoc(rs: seq<Record>, r: Record, f: Record --> Result<Record, Error>)
    requires AllText(rs) && TextFields(r) && TextFilter(f)
    ensures AllText(rs + [r])
    ensures FilterAll(rs + [r], f) == FilterAll(rs, f) + [f(r)]
  {
    assert (rs + [r])[..|rs|] == rs;
  }

  lemma {:induction false} FilterAllPrefix(rs: seq<Record>, k: int, f: Record --> Result<Record, Error>)
    requires AllText(rs) && TextFilter(f) && 0 <= k <= |rs|
    ensures AllText(rs[..k])
    ensures FilterAll(rs, f)[..k] == FilterAll(rs[..k], f)
  {
    if k < |rs| {
      var n := |rs| - 1;
      assert rs[..n][..k] == rs[..k];
      FilterAllPrefix(rs[..n], k, f);
    } else {
      assert rs[..k] == rs;
    }
  }

  predicate FilteredText(fs: seq<Result<Record, Error>>) {
    forall j :: 0 <= j < |fs| && fs[j].Ok? ==> TextFields(fs[j].value)
  }

  /** The storing half of the loop of `get_host_info`: each filtered record
      goes under its hardware address, and the first raised error stops it. */
  function Store(fs: seq<Result<Record, Error>>): (res: Result<HostMap, Error>)
    requires FilteredText(fs)
    ensures res.Ok? ==> forall m :: m in res.value ==> TextFields(res.value[m]) && MacOf(res.value[m]) == m
  {
    if fs == [] then Ok(map[])
    else
      match Store(fs[..|fs| - 1])
      case Err(e) => Err(e)
      case Ok(m) =>
        match fs[|fs| - 1]
        case Err(e) => Err(e)
        case Ok(f) => Ok(m[MacOf(f) := f])
  }

  /** Storing succeeds exactly when no record raised. */
  lemma {:induction false} StoreOk(fs: seq<Result<Record, Error>>)
    requires FilteredText(fs)
    ensures Store(fs).Ok? <==> forall j :: 0 <= j < |fs| ==> fs[j].Ok?
  {
    if fs != [] {
      var n := |fs| - 1;
      var init := fs[..n];
      assert forall j :: 0 <= j < n ==> init[j] == fs[j];
      StoreOk(init);
    }
  }

  /** When storing succeeds, the keys are the hardware addresses of all
      records. */
  lemma {:induction false} StoreKeys(fs: seq<Result<Record, Error>>)
    requires FilteredText(fs) && Store(fs).Ok?
    ensures Store(fs).value.Keys == set j | 0 <= j < |fs| && fs[j].Ok? :: MacOf(fs[j].value)
  {
    StoreOk(fs);
    if fs != [] {
      var n := |fs| - 1;
      var init := fs[..n];
      assert forall j :: 0 <= j < n ==> init[j] == fs[j];
      StoreKeys(init);
      var all := set j | 0 <= j < |fs| && fs[j].Ok? :: MacOf(fs[j].value);
      var before := set j | 0 <= j < n && init[j].Ok? :: MacOf(init[j].value);
      forall m | m in all ensures m in before + {MacOf(fs[n].value)} {
        var j :| 0 <= j < |fs| && fs[j].Ok? && MacOf(fs[j].value) == m;
        if j < n {
          assert init[j] == fs[j];
        }
      }
      forall m | m in before ensures m in all {
        var j :| 0 <= j < n && init[j].Ok? && MacOf(init[j].value) == m;
        assert init[j] == fs[j];
      }
    }
  }

  /** An error is the first one raised: every record before it stored. */
  lemma {:induction false} StoreFirstError(fs: seq<Result<Record, Error>>)
    requires FilteredText(fs) && Store(fs).Err?
    ensures exists i :: 0 <= i < |fs| && fs[i] == Err(Store(fs).error) &&
                        forall j :: 0 <= j < i ==> fs[j].Ok?
  {
    var n := |fs| - 1;
    var init := fs[..n];
    assert forall j :: 0 <= j < n ==> fs[j] == init[j];
    if Store(init).Err? {
      StoreFirstError(init);
      var i :| 0 <= i < |init| && init[i] == Err(Store(init).error) &&
               forall j :: 0 <= j < i ==> init[j].Ok?;
      assert Store(fs) == Store(init);
      assert 0 <= i < |fs| && fs[i] == Err(Store(fs).error) && forall j :: 0 <= j < i ==> fs[j].Ok?;
    } else {
      StoreOk(init);
      assert fs[n] == Err(Store(fs).error);
      assert 0 <= n < |fs| && fs[n] == Err(Store(fs).error) && forall j :: 0 <= j < n ==> fs[j].Ok?;
    }
  }

  /** A later record with the same hardware address overwrites an earlier
      one: a record that no later one overrides is what is stored. */
  lemma {:induction false} StoreLastWins(fs: seq<Result<Record, Error>>, i: int)
    requires FilteredText(fs) && Store(fs).Ok? && 0 <= i < |fs|
    requires fs[i].Ok?
    requires forall j :: i < j < |fs| && fs[j].Ok? ==> MacOf(fs[j].value) != MacOf(fs[i].value)
    ensures MacOf(fs[i].value) in Store(fs).value
    ensures Store(fs).value[MacOf(fs[i].value)] == fs[i].value
  {
    var n := |fs| - 1;
    if i < n {
      var init := fs[..n];
      assert init[i] == fs[i];
      assert forall j :: i < j < |init| ==> init[j] == fs[j];
      StoreLastWins(init, i);
    }
  }

  /** Once a record raises, the records after it make no difference. */
  lemma {:induction false} StoreStops(fs: seq<Result<Record, Error>>, k: int)
    requires FilteredText(fs) && 0 <= k <= |fs|
    requires Store(fs[..k]).Err?
    ensures Store(fs) == Store(fs[..k])
  {
    if k < |fs| {
      var n := |fs| - 1;
      assert fs[..n][..k] == fs[..k];
      StoreStops(fs[..n], k);
    } else {
      assert fs[..k] == fs;
    }
  }

  /** The loop of `get_host_info` over the unwrapped records, each passed
      through `filter` (which is `_filter`, see `FilterWith`). */
  function Collect(rs: seq<Record>, filter: Record --> Result<Record, Error>): Result<HostMap, Error>
    requires AllText(rs) && TextFilter(filter)
  {
    Store(FilterAll(rs, filter))
  }

  /** The host table loads exactly when no record raises; its keys are then
      the `mac` values of the records (`""` for a record without one), and
      each record that no later record with the same `mac` overrides is
      stored, filtered. */
  lemma CollectKeys(rs: seq<Record>, filter: Record --> Result<Record, Error>)
    requires AllText(rs) && TextFilter(filter)
    ensures Collect(rs, filter).Ok? <==> forall j :: 0 <= j < |rs| ==> filter(rs[j]).Ok?
    ensures Collect(rs, filter).Ok? ==>
      Collect(rs, filter).value.Keys == set j | 0 <= j < |rs| :: MacOf(rs[j])
    ensures Collect(rs, filter).Ok? ==>
      forall i :: 0 <= i < |rs| && (forall j :: i < j < |rs| ==> MacOf(rs[j]) != MacOf(rs[i])) ==>
        Collect(rs, filter).value[MacOf(rs[i])] == filter(rs[i]).value
  {
    var fs := FilterAll(rs, filter);
    FilterAllAt(rs, filter);
    StoreOk(fs);
    if Store(fs).Ok? {
      StoreKeys(fs);
      assert forall j :: 0 <= j < |rs| ==> MacOf(fs[j].value) == MacOf(rs[j]);
      assert (set j | 0 <= j < |fs| && fs[j].Ok? :: MacOf(fs[j].value)) == set j | 0 <= j < |rs| :: MacOf(rs[j]);
      forall i | 0 <= i < |rs| && (forall j :: i < j < |rs| ==> MacOf(rs[j]) != MacOf(rs[i]))
        ensures Collect(rs, filter).value[MacOf(rs[i])] == filter(rs[i]).value
      {
        StoreLastWins(fs, i);
      }
    }
  }

  /** One more record: stored under its `mac` once filtered, or its error. */
  lemma CollectSnoc(rs: seq<Record>, r: Record, filter: Record --> Result<Record, Error>)
    requires AllText(rs) && TextFields(r) && TextFilter(filter) && Collect(rs, filter).Ok?
    ensures AllText(rs + [r])
    ensures Collect(rs + [r], filter) ==
      match filter(r)
      case Err(e) => Err(e)
      case Ok(f) => Ok(Collect(rs, filter).value[MacOf(f) := f])
  {
    FilterAllSnoc(rs, r, filter);
    var fs := FilterAll(rs + [r], filter);
    assert fs[..|fs| - 1] == FilterAll(rs, filter);
  }

  /** Once a record raises, the records after it are never looked at. */
  lemma CollectStops(all: seq<Record>, rs: seq<Record>, filter: Record --> Result<Record, Error>)
    requires AllText(all) && AllText(rs) && TextFilter(filter) && rs <= all
    requires Collect(rs, filter).Err?
    ensures Collect(all, filter) == Collect(rs, filter)
  {
    var fs := FilterAll(all, filter);
    FilterAllPrefix(all, |rs|, filter);
    assert all[..|rs|] == rs;
    StoreStops(fs, |rs|);
  }

  /** The reply to the host-table request: the `host_management` object holds
      the `host_info` list of wrapper objects. */
  type TableReply = map<string, map<string, seq<Wrapper>>>

  /** `results.get("host_management", {}).get("host_info", [])` */
  function HostTable(reply: TableReply): seq<Wrapper> {
    if "host_management" in reply && "host_info" in reply["host_management"]
    then reply["host_management"]["host_info"] else []
  }

  /** The reply to the login request. */
  type LoginReply = map<string, string>

  /** `get_token`'s verdict: a non-empty reply with a non-empty `stok`. */
  predicate LoginSucceeds(reply: LoginReply) {
    reply != map[] && "stok" in reply && reply["stok"] != ""
  }

  /** The token `get_token` leaves behind: an empty reply changes nothing,
      any other reply sets it to `stok`, or `""` without one. */
  function TokenAfterLogin(token: string, reply: LoginReply): string {
    if reply == map[] then token else if "stok" in reply then reply["stok"] else ""
  }

  /** Login succeeds exactly when it leaves a token behind, and then it is
      the token the router sent. */
  lemma LoginStoresToken(token: string, reply: LoginReply)
    ensures LoginSucceeds(reply) <==> reply != map[] && TokenAfterLogin(token, reply) != ""
    ensures LoginSucceeds(reply) ==> TokenAfterLogin(token, reply) == reply["stok"]
    ensures !LoginSucceeds(reply) ==> TokenAfterLogin(token, reply) in {token, ""}
  {
  }

  /** What `get_host_info` returns, given the token it starts with. */
  function HostInfo(token: string, login: LoginReply, reply: TableReply,
                    unquote: string -> string, now: int): (res: Result<HostMap, Error>)
    requires TableText(HostTable(reply))
    ensures res.Ok? ==> forall m :: m in res.value ==> TextFields(res.value[m])
  {
    if token == "" && !LoginSucceeds(login) then Ok(map[])
    else if reply == map[] then Ok(map[])
    else
      FlattenText(HostTable(reply));
      Collect(Flatten(HostTable(reply)), FilterWith(unquote, now))
  }

  /** `get_host_info` gives `{}` when there is no token and login fails, and
      when the table request fails; otherwise the filtered host table. */
  lemma HostInfoCases(token: string, login: LoginReply, reply: TableReply,
                      unquote: string -> string, now: int)
    requires TableText(HostTable(reply))
    ensures token == "" && !LoginSucceeds(login) ==> HostInfo(token, login, reply, unquote, now) == Ok(map[])
    ensures reply == map[] ==> HostInfo(token, login, reply, unquote, now) == Ok(map[])
    ensures (token != "" || LoginSucceeds(login)) && reply != map[] ==>
      var rs := Flatten(HostTable(reply));
      AllText(rs) && HostInfo(token, login, reply, unquote, now) == Collect(rs, FilterWith(unquote, now))
  {
    FlattenText(HostTable(reply));
  }

  /** The router client: its credentials, and the session token `stok`,
      `""` until a login succeeds. */
  class Router {
    const host: string
    const username: string
    const password: string
    var stok: string

    constructor (host: string, username: string, password: string)
      ensures this.host == host && this.username == username && this.password == password
      ensures stok == ""
    {
      this.host := host;
      this.username := username;
      this.password := password;
      stok := "";
    }

    /** `get_token`, given the router's reply to the login request. */
    method GetToken(reply: LoginReply) returns (ok: bool)
      modifies this
      ensures ok <==> LoginSucceeds(reply)
      ensures stok == TokenAfterLogin(old(stok), reply)
    {
      if reply != map[] {
        stok := if "stok" in reply then reply["stok"] else "";
        if stok != "" {
          return true;
        }
      }
      return false;
    }

    /** `get_host_info`, given the replies to the login request (sent only
        when there is no token) and to the host-table request. The token is
        kept when the table request fails. */
    method GetHostInfo(login: LoginReply, reply: TableReply, unquote: string -> string, now: int)
      returns (res: Result<HostMap, Error>)
      requires TableText(HostTable(reply))
      modifies this
      ensures stok == if old(stok) == "" then TokenAfterLogin(old(stok), login) else old(stok)
      ensures res == HostInfo(old(stok), login, reply, unquote, now)
    {
      if stok == "" {
        var ok := GetToken(login);
        if !ok {
          return Ok(map[]);
        }
      }
      if reply == map[] {
        return Ok(map[]);
      }
      res := UnwrapHostTable(HostTable(reply), FilterWith(unquote, now));
    }
  }

  /** The nested loop of `get_host_info`: every record of every wrapper,
      passed through `filter` and stored under its hardware address. */
  method UnwrapHostTable(table: seq<Wrapper>, filter: Record --> Result<Record, Error>)
    returns (res: Result<HostMap, Error>)
    requires TableText(table) && TextFilter(filter)
    ensures AllText(Flatten(table))
    ensures res == Collect(Flatten(table), filter)
  {
    FlattenText(table);
    var infos: HostMap := map[];
    var i := 0;
    while i < |table|
      invariant 0 <= i <= |table|
      invariant AllText(Flatten(table[..i]))
      invariant Collect(Flatten(table[..i]), filter) == Ok(infos)
    {
      assert table[..i + 1][..i] == table[..i];
      var r := StoreWrapper(table[i], infos, Flatten(table[..i]), filter);
      if r.Err? {
        FlattenPrefix(table, i + 1);
        CollectStops(Flatten(table), Flatten(table[..i + 1]), filter);
        return r;
      }
      infos := r.value;
      i := i + 1;
    }
    assert table[..i] == table;
    return Ok(infos);
  }

  /** The inner loop of `get_host_info`: the records of one wrapper, each
      filtered and stored into `infos`, which holds the records before it.
      `self._filter(host_info)` is the call `filter(host)`: `Router.GetHostInfo`
      passes `FilterWith(unquote, now)`, which is `Filter` on every record, and
      `FilterHost` is the in-place `_filter` proved equal to `Filter`. */
  method StoreWrapper(w: Wrapper, infos: HostMap, ghost before: seq<Record>,
                      filter: Record --> Result<Record, Error>)
    returns (res: Result<HostMap, Error>)
    requires AllText(before) && forall j :: 0 <= j < |w| ==> TextFields(w[j].1)
    requires TextFilter(filter) && Collect(before, filter) == Ok(infos)
    ensures AllText(before + Unwrapped(w))
    ensures res == Collect(before + Unwrapped(w), filter)
  {
    ghost var rs := before;
    res := Ok(infos);
    var j := 0;
    while j < |w|
      invariant 0 <= j <= |w|
      invariant rs == before + Unwrapped(w[..j]) && AllText(rs)
      invariant Collect(rs, filter) == res && res.Ok?
    {
      var host := w[j].1;
      var f := filter(host);
      CollectSnoc(rs, host, filter);
      UnwrappedSnoc(w, j);
      rs := rs + [host];
      if f.Err? {
        UnwrappedPrefix(w, j + 1);
        AppendPrefix(before, Unwrapped(w[..j + 1]), Unwrapped(w));
        CollectStops(before + Unwrapped(w), rs, filter);
        return Err(f.error);
      }
      res := Ok(res.value[MacOf(f.value) := f.value]);
      j := j + 1;
    }
    assert w[..j] == w;
  }

  lemma AppendPrefix(a: seq<Record>, b: seq<Record>, c: seq<Record>)
    requires b <= c
    ensures a + b <= a + c
  {
    assert forall k :: 0 <= k < |a| + |b| ==> (a + b)[k] == (a + c)[k];
  }

  lemma UnwrappedSnoc(w: Wrapper, j: int)
    requires 0 <= j < |w|
    ensures Unwrapped(w[..j + 1]) == Unwrapped(w[..j]) + [w[j].1]
  {
  }

  lemma UnwrappedPrefix(w: Wrapper, j: int)
    requires 0 <= j <= |w|
    ensures Unwrapped(w[..j]) <= Unwrapped(w)
  {
  }

  /** The records of the first `i` wrappers come first. */
  lemma {:induction false} FlattenPrefix(table: seq<Wrapper>, i: int)
    requires 0 <= i <= |table|
    ensures Flatten(table[..i]) <= Flatten(table)
  {
    if i < |table| {
      var n := |table| - 1;
      assert table[..n][..i] == table[..i];
      FlattenPrefix(table[..n], i);
    } else {
      assert table[..i] == table;
    }
  }
}
