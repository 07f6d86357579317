/** The store's operations as functions on what is on disk: the log's records and the blob files. */
module Engine {
  import opened Text
  import opened Wrappers
  import opened CounterCodec
  import opened CounterSteps
  import opened SecIndex
  import opened Records
  import opened MainLog
  import opened LogIndex

  /** A declared index; a positive `max` caps how many records may share one value. */
  datatype IndexDef = IndexDef(kind: Kind, max: int)

  /** What the store is opened with.  `extract` runs the declared extractors over a key and value; `dropped`
      are the soft-dropped index names; `sprint` prints a number. */
  datatype Config = Config(
    codec: Codec,
    defs: map<string, IndexDef>,
    extract: (string, string) -> IX,
    dropped: set<string>,
    blobThreshold: int,
    sprint: int -> string)

  datatype Disk = Disk(recs: seq<Record>, blobs: Blobs, curGen: nat)

  // ---- index values of a write ----

  /** Leading JSON white space, then an opening brace. */
  predicate IsObject(value: string) {
    value != "" && (if value[0] in " \t\r\n" then IsObject(value[1..]) else value[0] == '{')
  }

  predicate ValidFor(cfg: Config, ix: IX) {
    forall name :: name in ix ==> name in cfg.defs && Fits(cfg.defs[name].kind, ix[name])
  }

  /** What the extractors add to the explicit values. */
  function Derived(cfg: Config, key: string, value: string, explicit: IX): IX {
    var found := cfg.extract(key, value);
    map name | name in found && name in cfg.defs && name !in explicit :: found[name]
  }

  /** The validated index values of a write, or None for an error. */
  function BuildIX(cfg: Config, key: string, value: string, explicit: IX): (r: Option<IX>)
    ensures r.Some? ==> ValidFor(cfg, r.value)
  {
    if |cfg.defs| == 0 && |explicit| == 0 then Some(map[])
    else if !IsObject(value) then (if |explicit| > 0 then None else Some(map[]))
    else if !ValidFor(cfg, explicit) then None
    else
      var derived := Derived(cfg, key, value, explicit);
      if !ValidFor(cfg, derived) then None else Some(derived + explicit)
  }

  /** An extractor produced a value of the wrong kind for a declared index, and no explicit value overrides it. */
  predicate BadlyDerived(cfg: Config, key: string, value: string, explicit: IX) {
    var found := cfg.extract(key, value);
    exists name :: name in found && name in cfg.defs && name !in explicit && !Fits(cfg.defs[name].kind, found[name])
  }

  /** Exactly which writes are refused, and what the others carry: every explicit value, and every extracted one
      of a declared index that no explicit value overrides. */
  lemma BuildIXIff(cfg: Config, key: string, value: string, explicit: IX)
    ensures var r := BuildIX(cfg, key, value, explicit);
      && (r.None? <==> if IsObject(value) then !ValidFor(cfg, explicit) || BadlyDerived(cfg, key, value, explicit)
                       else |explicit| > 0)
      && (r.Some? ==> forall name :: name in explicit ==> name in r.value && r.value[name] == explicit[name])
      && (r.Some? ==> forall name :: name in r.value && name !in explicit ==>
            IsObject(value) && name in cfg.extract(key, value) && r.value[name] == cfg.extract(key, value)[name])
      && (r.Some? && IsObject(value) ==>
            forall name :: name in cfg.extract(key, value) && name in cfg.defs ==> name in r.value)
  {
    if |cfg.defs| == 0 && |explicit| == 0 {
      assert cfg.defs.Keys == {} && explicit == map[];
    }
  }

  // ---- appends and deletes ----

  predicate UseBlob(cfg: Config, size: nat) {
    cfg.blobThreshold > 0 && size >= cfg.blobThreshold
  }

  /** The record a write appends. */
  function NewRecord(cfg: Config, d: Disk, key: string, value: string, ix: IX, exp: int, counter: bool): Record {
    if !counter && UseBlob(cfg, |value|) then
      Record(key, "", Some(BlobRef(BlobSize(d.blobs, d.curGen), |value|, d.curGen)), false, ix, false, exp)
    else
      Record(key, value, None, false, ix, counter, exp)
  }

  function NewBlobs(cfg: Config, d: Disk, value: string, counter: bool): Blobs {
    if !counter && UseBlob(cfg, |value|) then
      d.blobs[d.curGen := (if d.curGen in d.blobs then d.blobs[d.curGen] else "") + value]
    else d.blobs
  }

  function Append(cfg: Config, d: Disk, key: string, value: string, ix: IX, exp: int, counter: bool): Disk {
    Disk(d.recs + [NewRecord(cfg, d, key, value, ix, exp, counter)], NewBlobs(cfg, d, value, counter), d.curGen)
  }

  function Delete(d: Disk, key: string): Disk {
    d.(recs := d.recs + [Tombstone(key)])
  }

  function DeleteAll(d: Disk, keys: seq<string>): Disk {
    if keys == [] then d else Delete(DeleteAll(d, keys[..|keys| - 1]), keys[|keys| - 1])
  }

  // ---- caps ----

  /** The keys whose record carries value `v` for index `name`. */
  ghost function GroupSet(m: map<string, Record>, name: string, v: Value): set<string> {
    set k | k in m && name in m[k].ix && m[k].ix[name] == v
  }

  ghost function Group(d: Disk, name: string, v: Value): seq<string> {
    SortedKeys(GroupSet(Contents(d.recs), name, v))
  }

  predicate Capped(cfg: Config, name: string, v: Value) {
    name in cfg.defs && cfg.defs[name].max > 0 && Fits(cfg.defs[name].kind, v)
  }

  /** Enforcing the cap on one value of one index. */
  ghost function EnforceOne(cfg: Config, d: Disk, name: string, v: Value): Disk {
    if Capped(cfg, name, v) then DeleteAll(d, Victims(Group(d, name, v), cfg.defs[name].max)) else d
  }

  /** `order` is the order in which the write visits the names of `ix`. */
  ghost function Enforce(cfg: Config, d: Disk, ix: IX, order: seq<string>): Disk
    decreases |order|
  {
    if order == [] then d
    else if order[0] !in ix then Enforce(cfg, d, ix, order[1..])
    else Enforce(cfg, EnforceOne(cfg, d, order[0], ix[order[0]]), ix, order[1..])
  }

  /** The key would be a new member of a full group and its own eviction victim. */
  ghost predicate SelfEvicts(cfg: Config, d: Disk, key: string, name: string, v: Value) {
    var g := GroupSet(Contents(d.recs), name, v);
    Capped(cfg, name, v) && key !in g && key in Victims(SortedKeys(g + {key}), cfg.defs[name].max)
  }

  ghost predicate Rejected(cfg: Config, d: Disk, key: string, ix: IX) {
    exists name :: name in ix && SelfEvicts(cfg, d, key, name, ix[name])
  }

  // ---- writes ----

  ghost predicate Accepted(cfg: Config, d: Disk, key: string, value: string, explicit: IX) {
    var ix := BuildIX(cfg, key, value, explicit);
    ix.Some? && !Rejected(cfg, d, key, ix.value)
  }

  ghost function Put(cfg: Config, d: Disk, key: string, value: string, explicit: IX, exp: int, order: seq<string>)
    : Disk
  {
    if !Accepted(cfg, d, key, value, explicit) then d
    else
      var ix := BuildIX(cfg, key, value, explicit).value;
      Enforce(cfg, Append(cfg, d, key, value, ix, exp, false), ix, order)
  }

  /** One item of a batch; `ttl` is in nanoseconds, `now` the clock in milliseconds when the item is checked, and
      `order` the order in which its index names are visited. */
  datatype Item = Item(key: string, value: string, explicit: IX, ttl: int, now: int, order: seq<string>)

  /** The expiry of an item; zero if it carries no ttl. */
  function ItemExp(it: Item): int {
    if it.ttl > 0 then it.now + it.ttl / 1_000_000 else 0
  }

  function ItemIX(cfg: Config, it: Item): IX {
    var ix := BuildIX(cfg, it.key, it.value, it.explicit);
    if ix.Some? then ix.value else map[]
  }

  ghost predicate ItemAccepted(cfg: Config, d: Disk, it: Item) {
    it.ttl >= 0 && Accepted(cfg, d, it.key, it.value, it.explicit)
  }

  ghost predicate BatchAccepted(cfg: Config, d: Disk, items: seq<Item>) {
    forall i :: 0 <= i < |items| ==> ItemAccepted(cfg, d, items[i])
  }

  function AppendItems(cfg: Config, d: Disk, items: seq<Item>): Disk {
    if items == [] then d
    else
      var it := items[|items| - 1];
      Append(cfg, AppendItems(cfg, d, items[..|items| - 1]), it.key, it.value, ItemIX(cfg, it), ItemExp(it), false)
  }

  /** One (index, value) pair a batch touched. */
  datatype Touch = Touch(name: string, val: Value)

  function Sprint(cfg: Config, v: Value): string {
    match v
    case Str(s) => s
    case Num(n) => cfg.sprint(n)
  }

  /** The text a batch uses to recognize a pair it already enforced. */
  function SeenKey(cfg: Config, t: Touch): string {
    t.name + ['\0'] + Sprint(cfg, t.val)
  }

  function TouchesOf(ix: IX, order: seq<string>): seq<Touch>
    decreases |order|
  {
    if order == [] then []
    else (if order[0] in ix then [Touch(order[0], ix[order[0]])] else []) + TouchesOf(ix, order[1..])
  }

  function Touches(cfg: Config, items: seq<Item>): seq<Touch> {
    if items == [] then []
    else Touches(cfg, items[..|items| - 1]) + TouchesOf(ItemIX(cfg, items[|items| - 1]), items[|items| - 1].order)
  }

  /** One enforcement per distinct seen key. */
  ghost function EnforceSeen(cfg: Config, d: Disk, ts: seq<Touch>, seen: set<string>): Disk
    decreases |ts|
  {
    if ts == [] then d
    else if SeenKey(cfg, ts[0]) in seen then EnforceSeen(cfg, d, ts[1..], seen)
    else EnforceSeen(cfg, EnforceOne(cfg, d, ts[0].name, ts[0].val), ts[1..], seen + {SeenKey(cfg, ts[0])})
  }

  ghost function PutBatch(cfg: Config, d: Disk, items: seq<Item>): Disk {
    if !BatchAccepted(cfg, d, items) then d
    else EnforceSeen(cfg, AppendItems(cfg, d, items), Touches(cfg, items), {})
  }

  lemma AcceptedBatch(cfg: Config, d: Disk, items: seq<Item>)
    requires BatchAccepted(cfg, d, items)
    ensures PutBatch(cfg, d, items) == EnforceSeen(cfg, AppendItems(cfg, d, items), Touches(cfg, items), {})
  {
  }

  lemma RejectedBatch(cfg: Config, d: Disk, items: seq<Item>)
    requires !BatchAccepted(cfg, d, items)
    ensures PutBatch(cfg, d, items) == d
  {
  }

  // ---- deletes ----

  ghost function DeleteKey(d: Disk, key: string): Disk {
    if key in Contents(d.recs) then Delete(d, key) else d
  }

  /** The keys strictly below the cutoff, in the order their tombstones are written. */
  ghost function Below(keys: set<string>, cutoff: string): seq<string> {
    SortedKeys(KeysBelow(keys, cutoff))
  }

  /** The keys strictly above the cutoff. */
  ghost function Beyond(keys: set<string>, cutoff: string): seq<string> {
    SortedKeys(KeysBeyond(keys, cutoff))
  }

  ghost function RemoveLess(d: Disk, cutoff: string): Disk {
    DeleteAll(d, Below(Contents(d.recs).Keys, cutoff))
  }

  ghost function RemoveGreater(d: Disk, cutoff: string): Disk {
    DeleteAll(d, Beyond(Contents(d.recs).Keys, cutoff))
  }

  /** An expired entry a read saw, with the offset it had then. */
  datatype ReapReq = ReapReq(key: string, off: nat)

  ghost predicate Reapable(cfg: Config, d: Disk, r: ReapReq, now: int) {
    var pk := Replay(cfg.codec, d.recs);
    r.key in pk && pk[r.key].off == r.off && ExpiredAt(pk[r.key].exp, now)
  }

  ghost function Reap(cfg: Config, d: Disk, reqs: seq<ReapReq>, now: int): Disk
    decreases |reqs|
  {
    if reqs == [] then d
    else Reap(cfg, if Reapable(cfg, d, reqs[0], now) then Delete(d, reqs[0].key) else d, reqs[1..], now)
  }

  // ---- counters ----

  datatype Counted = Counted(disk: Disk, reply: Reply)

  /** Replaces the digits of the key's latest record where they lie. */
  ghost function Patch(d: Disk, key: string, v: int64): Disk
    requires LastIndex(d.recs, key) >= 0
  {
    var i := LastIndex(d.recs, key);
    d.(recs := d.recs[i := d.recs[i].(value := Format(v))])
  }

  /** Creating or recreating a counter. */
  ghost function CountFresh(cfg: Config, d: Disk, key: string, createExp: int, op: CounterOp): Counted
    requires !NegativeAmount(op)
  {
    var s := StepOf(op, 0);
    Counted(if s.Move? then Append(cfg, d, key, Format(s.next), map[], createExp, true) else d, ReplyOf(op, 0))
  }

  /** Stepping the live record `r`. */
  ghost function CountLive(cfg: Config, d: Disk, r: Record, op: CounterOp): Counted
    requires !NegativeAmount(op) && LastIndex(d.recs, r.key) >= 0
  {
    if r.blob.Some? || !r.counter || Parse(r.value).None? then Counted(d, ErrNotCounter)
    else
      var cur := Parse(r.value).value;
      var s := StepOf(op, cur);
      Counted(
        if !s.Move? then d
        else if r.ix == map[] then Patch(d, r.key, s.next)
        else Append(cfg, d, r.key, Format(s.next), map[], r.exp, true),
        ReplyOf(op, cur))
  }

  ghost function Count(cfg: Config, d: Disk, key: string, now: int, createExp: int, op: CounterOp): Counted {
    var m := Contents(d.recs);
    if NegativeAmount(op) then Counted(d, ErrNegativeAmount)
    else if key !in m then CountFresh(cfg, d, key, createExp, op)
    else if ExpiredAt(m[key].exp, now) then CountFresh(cfg, Delete(d, key), key, createExp, op)
    else
      ReplayMirrors(cfg.codec, d.recs, key);
      CountLive(cfg, d, m[key], op)
  }

  // ---- compaction ----

  function FilterKnown(cfg: Config, ix: IX): IX {
    map name | name in ix && (name in cfg.defs || name in cfg.dropped) :: ix[name]
  }

  function ReadBlob(blobs: Blobs, ref: BlobRef): string {
    if ref.gen in blobs && ref.off + ref.size <= |blobs[ref.gen]| then blobs[ref.gen][ref.off..ref.off + ref.size]
    else ""
  }

  /** The rewritten records and, for a relieve, the contents of the new blob generation. */
  datatype Rewritten = Rewritten(recs: seq<Record>, blob: string)

  /** One live record, rewritten: index values filtered and, for a relieve, its blob moved to the new file. */
  function Transform(cfg: Config, d: Disk, relieve: bool, r: Record, blob: string): Rewritten {
    var r' := r.(ix := FilterKnown(cfg, r.ix));
    if relieve && r.blob.Some? then
      var val := ReadBlob(d.blobs, r.blob.value);
      Rewritten([r'.(blob := Some(BlobRef(|blob|, |val|, d.curGen + 1)))], blob + val)
    else Rewritten([r'], blob)
  }

  /** One more key visited: skipped if expired, rewritten otherwise. */
  ghost function RewriteKey(cfg: Config, d: Disk, relieve: bool, before: Rewritten, k: string, now: int): Rewritten {
    var m := Contents(d.recs);
    if k !in m || ExpiredAt(m[k].exp, now) then before
    else
      var one := Transform(cfg, d, relieve, m[k], before.blob);
      Rewritten(before.recs + one.recs, one.blob)
  }

  /** Visiting the given keys in order. */
  ghost function Rewrite(cfg: Config, d: Disk, relieve: bool, ks: seq<string>, now: int): Rewritten {
    if ks == [] then Rewritten([], "")
    else RewriteKey(cfg, d, relieve, Rewrite(cfg, d, relieve, ks[..|ks| - 1], now), ks[|ks| - 1], now)
  }

  lemma RewriteSnoc(cfg: Config, d: Disk, relieve: bool, ks: seq<string>, k: string, now: int)
    ensures Rewrite(cfg, d, relieve, ks + [k], now) ==
            RewriteKey(cfg, d, relieve, Rewrite(cfg, d, relieve, ks, now), k, now)
  {
    assert (ks + [k])[..|ks|] == ks;
  }

  ghost function LiveKeys(d: Disk): seq<string> {
    SortedKeys(Contents(d.recs).Keys)
  }

  ghost function Compact(cfg: Config, d: Disk, now: int): Disk {
    d.(recs := Rewrite(cfg, d, false, LiveKeys(d), now).recs)
  }

  ghost function Relieve(cfg: Config, d: Disk, now: int): Disk {
    var rw := Rewrite(cfg, d, true, LiveKeys(d), now);
    Disk(rw.recs, map[d.curGen + 1 := rw.blob], d.curGen + 1)
  }

  // ---- operations and runs ----

  datatype Op =
    | OpPut(key: string, value: string, explicit: IX, exp: int, order: seq<string>)
    | OpBatch(items: seq<Item>)
    | OpDelete(key: string)
    | OpRemoveLess(cutoff: string)
    | OpRemoveGreater(cutoff: string)
    | OpCount(key: string, createExp: int, cop: CounterOp)
    | OpReap(reqs: seq<ReapReq>)
    | OpCompact
    | OpRelieve

  /** An operation and the clock it saw. */
  datatype Timed = Timed(now: int, op: Op)

  ghost function Step(cfg: Config, d: Disk, t: Timed): Disk {
    match t.op
    case OpPut(key, value, explicit, exp, order) => Put(cfg, d, key, value, explicit, exp, order)
    case OpBatch(items) => PutBatch(cfg, d, items)
    case OpDelete(key) => DeleteKey(d, key)
    case OpRemoveLess(cutoff) => RemoveLess(d, cutoff)
    case OpRemoveGreater(cutoff) => RemoveGreater(d, cutoff)
    case OpCount(key, createExp, cop) => Count(cfg, d, key, t.now, createExp, cop).disk
    case OpReap(reqs) => Reap(cfg, d, reqs, t.now)
    case OpCompact => Compact(cfg, d, t.now)
    case OpRelieve => Relieve(cfg, d, t.now)
  }

  lemma StepOfCompact(cfg: Config, d: Disk, t: Timed)
    requires t.op.OpCompact?
    ensures Step(cfg, d, t) == Compact(cfg, d, t.now)
  {
  }

  lemma StepOfRelieve(cfg: Config, d: Disk, t: Timed)
    requires t.op.OpRelieve?
    ensures Step(cfg, d, t) == Relieve(cfg, d, t.now)
  {
  }

  predicate Rewrites(op: Op) {
    op.OpCompact? || op.OpRelieve?
  }

  ghost function RunAll(cfg: Config, d: Disk, ts: seq<Timed>): Disk {
    if ts == [] then d else Step(cfg, RunAll(cfg, d, ts[..|ts| - 1]), ts[|ts| - 1])
  }

  function EmptyDisk(): Disk {
    Disk([], map[0 := ""], 0)
  }

  // ---- the invariant ----

  predicate RefInside(blobs: Blobs, r: Record) {
    r.blob.Some? ==> r.blob.value.gen in blobs && r.blob.value.off + r.blob.value.size <= |blobs[r.blob.value.gen]|
  }

  ghost predicate RecordsOk(blobs: Blobs, recs: seq<Record>) {
    forall i :: 0 <= i < |recs| ==> RefInside(blobs, recs[i])
  }

  predicate GenerationsOk(d: Disk) {
    d.curGen in d.blobs && forall g :: g in d.blobs ==> g <= d.curGen
  }

  /** New blobs go to the highest generation, and every record of the log, live or superseded, points inside an
      existing blob file. */
  ghost predicate Inv(d: Disk) {
    GenerationsOk(d) && RecordsOk(d.blobs, d.recs)
  }
}
