/** The identity codes as the programs keep them: a shared store, a cache per program over it, and the service. */
module IdentityService {
  import opened Wrappers
  import opened Clock
  import opened IdentityCodes

  class Redis {
    var otps: map<string, Entry<OtpData>>
    var trackers: map<Tracker, Entry<string>>

    ghost function Contents(): Store
      reads this
    {
      Store(otps, trackers)
    }

    constructor ()
      ensures Contents() == EMPTY
    {
      otps, trackers := map[], map[];
    }
  }

  class Cache {
    const redis: Redis
    const program: Program

    constructor (redis: Redis, program: Program)
      ensures this.redis == redis && this.program == program
    {
      this.redis, this.program := redis, program;
    }

    method SetOtp(code: string, data: OtpData, now: int)
      modifies redis
      ensures redis.otps == old(redis.otps)[code := Entry(data, now + OtpTtl(program, data.kind))]
      ensures redis.trackers == old(redis.trackers)
    {
      var ttl := OtpTtl(program, data.kind);
      redis.otps := redis.otps[code := Entry(data, now + ttl)];
    }

    method GetOtp(code: string, now: int) returns (data: Option<OtpData>)
      ensures data == Live(redis.otps, code, now)
    {
      if code in redis.otps && now < redis.otps[code].until {
        return Some(redis.otps[code].value);
      }
      data := None;
    }

    /** Read and removed in one: what was live comes back once. */
    method ConsumeOtp(code: string, now: int) returns (data: Option<OtpData>)
      modifies redis
      ensures data == Live(old(redis.otps), code, now)
      ensures redis.Contents() == Step(old(redis.Contents()), Drop(code, now))
    {
      data := GetOtp(code, now);
      redis.otps := redis.otps - {code};
    }

    method DeleteOtp(code: string)
      modifies redis
      ensures redis.otps == old(redis.otps) - {code} && redis.trackers == old(redis.trackers)
    {
      redis.otps := redis.otps - {code};
    }

    method SetActiveIdentity(clientId: string, code: string, now: int)
      modifies redis
      ensures redis.otps == old(redis.otps)
      ensures redis.trackers == old(redis.trackers)[(program, clientId) := Entry(code, now + IDENTITY_TTL)]
    {
      redis.trackers := redis.trackers[(program, clientId) := Entry(code, now + IDENTITY_TTL)];
    }

    /** The empty string stands for no tracker. */
    method GetActiveIdentity(clientId: string, now: int) returns (code: string)
      ensures var held := Live(redis.trackers, (program, clientId), now);
        code == if held.Some? then held.value else ""
    {
      var k := (program, clientId);
      if k in redis.trackers && now < redis.trackers[k].until {
        return redis.trackers[k].value;
      }
      code := "";
    }

    method DeleteActiveIdentity(clientId: string)
      modifies redis
      ensures redis.otps == old(redis.otps) && redis.trackers == old(redis.trackers) - {(program, clientId)}
    {
      redis.trackers := redis.trackers - {(program, clientId)};
    }
  }

  class Service {
    const cache: Cache

    constructor (cache: Cache)
      ensures this.cache == cache
    {
      this.cache := cache;
    }

    /** `code` is the code drawn, and `up` says which accesses work; only a failure to store the code is reported. */
    method RequestIdentityOtp(
      clientId: string, customerId: string, code: string, readAt: int, setAt: int, trackAt: int, up: Access)
      returns (issued: bool)
      modifies cache.redis
      ensures issued == up.store
      ensures cache.redis.Contents() ==
        Step(old(cache.redis.Contents()),
            Request(cache.program, clientId, customerId, code, readAt, setAt, trackAt, up))
    {
      var former := "";
      if up.read {
        former := cache.GetActiveIdentity(clientId, readAt);
      }
      if former != "" {
        if up.dropCode {
          cache.DeleteOtp(former);
        }
        if up.dropTracker {
          cache.DeleteActiveIdentity(clientId);
        }
      }
      if !up.store {
        return false;
      }
      cache.SetOtp(code, OtpData(clientId, customerId, IdentityKind(cache.program)), setAt);
      if up.track {
        cache.SetActiveIdentity(clientId, code, trackAt);
      }
      issued := true;
    }

    /** A code can be validated any number of times. */
    method ValidateIdentityOtp(code: string, now: int) returns (r: Result<OtpData, Error>)
      ensures r == Validate(cache.redis.Contents(), cache.program, code, now)
    {
      var data := cache.GetOtp(code, now);
      if data.None? {
        return Err(UnknownCode);
      }
      if data.value.kind != IdentityKind(cache.program) {
        return Err(WrongKind);
      }
      r := Ok(data.value);
    }
  }
}
