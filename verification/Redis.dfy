/**
 The Redis commands the server uses (apps/server/src/redis/client.ts), each one atomic.
 Times are milliseconds. A slot whose time has passed stays in the map but is not live.
 */
module Redis {
  import opened Common

  datatype Data<T> = Number(n: int) | Owner(id: nat) | Saved(value: T)

  datatype Slot<T> = Slot(data: Data<T>, expires: Option<int>)

  type Store<!K, T> = map<K, Slot<T>>

  predicate Live<K, T>(store: Store<K, T>, key: K, now: int) {
    key in store && (store[key].expires.None? || now < store[key].expires.value)
  }

  // GET.
  function Read<K, T>(store: Store<K, T>, key: K, now: int): Option<Data<T>> {
    if Live(store, key, now) then Some(store[key].data) else None
  }

  // GET as a number, 0 on a miss.
  function NumberAt<K, T>(store: Store<K, T>, key: K, now: int): int {
    match Read(store, key, now)
    case Some(Number(n)) => n
    case _ => 0
  }

  // SET with an expiry in seconds, none when it is 0: replaces value and expiry.
  function SetEx<K, T>(store: Store<K, T>, key: K, data: Data<T>, seconds: nat, now: int): Store<K, T> {
    store[key := Slot(data, if seconds > 0 then Some(now + 1000 * seconds) else None)]
  }

  // SET NX PX: only when there is no live value.
  function SetNx<K, T>(store: Store<K, T>, key: K, data: Data<T>, millis: nat, now: int): Store<K, T> {
    if Live(store, key, now) then store else store[key := Slot(data, Some(now + millis))]
  }

  // INCRBY: a missing counter starts from 0 without expiry; a live one keeps its expiry.
  function IncrBy<K, T>(store: Store<K, T>, key: K, amount: int, now: int): Store<K, T> {
    var expires := if Live(store, key, now) then store[key].expires else None;
    store[key := Slot(Number(NumberAt(store, key, now) + amount), expires)]
  }

  // EXPIRE: sets the expiry of a live key, nothing otherwise.
  function Expire<K, T>(store: Store<K, T>, key: K, seconds: nat, now: int): Store<K, T> {
    if Live(store, key, now) then store[key := store[key].(expires := Some(now + 1000 * seconds))] else store
  }

  /* What a read at time t sees after a command at an earlier time. */

  lemma SetExSeen<K, T>(store: Store<K, T>, key: K, data: Data<T>, seconds: nat, now: int, k: K, t: int)
    requires now <= t
    ensures Read(SetEx(store, key, data, seconds, now), k, t) ==
      if k != key then Read(store, k, t)
      else if seconds == 0 || t - now < 1000 * seconds then Some(data)
      else None
  {
  }

  lemma SetNxSeen<K, T>(store: Store<K, T>, key: K, data: Data<T>, millis: nat, now: int, k: K, t: int)
    requires now <= t
    ensures Read(SetNx(store, key, data, millis, now), k, t) ==
      if k != key || Read(store, key, now).Some? then Read(store, k, t)
      else if t - now < millis then Some(data)
      else None
  {
  }

  // The counter goes on where it stood, and ends when it would have.
  lemma IncrBySeen<K, T>(store: Store<K, T>, key: K, amount: int, now: int, k: K, t: int)
    requires now <= t
    ensures Read(IncrBy(store, key, amount, now), k, t) ==
      if k != key then Read(store, k, t)
      else if Read(store, key, now).Some? && Read(store, key, t).None? then None
      else Some(Number(NumberAt(store, key, now) + amount))
  {
  }

  lemma ExpireSeen<K, T>(store: Store<K, T>, key: K, seconds: nat, now: int, k: K, t: int)
    requires now <= t
    ensures Read(Expire(store, key, seconds, now), k, t) ==
      if k != key then Read(store, k, t)
      else if t - now < 1000 * seconds then Read(store, key, now)
      else None
  {
  }
}
