/**
  The session fingerprint (rule.php, `get_session_string`): the session key,
  then the client address unless it is falsy or inside the configured
  whitelist, then the user agent, concatenated with no separator.
  The request's ambient values and the host's `address_in_subnet` test are
  explicit inputs here.
 */
module SessionFingerprint {

  import opened Wrappers
  import Php

  /** What the request supplies: `sesskey()`, `getremoteaddr()`, `$_SERVER['HTTP_USER_AGENT']`. */
  datatype Request = Request(sessKey: string, remoteAddr: Option<string>, userAgent: Option<string>)

  /** `address_in_subnet($ip, $list)`: the host's subnet test. */
  type SubnetTest = (string, string) -> bool

  /** The request together with the plugin's `whitelist` setting and the host's subnet test. */
  datatype Env = Env(request: Request, whitelist: string, inSubnet: SubnetTest)

  /** An address is exempt only when a whitelist is configured and the address is in it. */
  predicate Exempt(ip: string, env: Env)
  {
    env.whitelist != "" && env.inSubnet(ip, env.whitelist)
  }

  /** Whether the address takes part in the fingerprint. */
  predicate AddressIncluded(env: Env)
  {
    Php.Truthy(env.request.remoteAddr) && !Exempt(env.request.remoteAddr.value, env)
  }

  /** `implode('', $parts)`. */
  function Implode(parts: seq<string>): string
  {
    if parts == [] then "" else parts[0] + Implode(parts[1..])
  }

  /** The fingerprint, component by component. */
  function Fingerprint(env: Env): string
  {
    env.request.sessKey
    + (if AddressIncluded(env) then env.request.remoteAddr.value else "")
    + Php.OrEmpty(env.request.userAgent)
  }

  /** `get_session_string`: appends the components to a list, then implodes it. */
  method GetSessionString(env: Env) returns (s: string)
    ensures s == Fingerprint(env)
    ensures AddressIncluded(env) ==> s == env.request.sessKey + env.request.remoteAddr.value + Php.OrEmpty(env.request.userAgent)
    ensures !AddressIncluded(env) ==> s == env.request.sessKey + Php.OrEmpty(env.request.userAgent)
  {
    var parts: seq<string> := [];
    parts := parts + [env.request.sessKey];
    var whitelist := env.whitelist;
    var ipAddress := env.request.remoteAddr;
    if Php.Truthy(ipAddress) {
      var inWhitelist := false;
      if whitelist != "" {
        inWhitelist := env.inSubnet(ipAddress.value, whitelist);
      }
      if !inWhitelist {
        parts := parts + [ipAddress.value];
      }
    }
    parts := parts + [Php.OrEmpty(env.request.userAgent)];
    if |parts| == 3 {
      ImplodeSnoc(parts[..2], parts[2]);
      ImplodeSnoc(parts[..1], parts[1]);
      assert parts[..2] == parts[..1] + [parts[1]];
      assert parts == parts[..2] + [parts[2]];
    } else {
      ImplodeSnoc(parts[..1], parts[1]);
      assert parts == parts[..1] + [parts[1]];
    }
    s := Implode(parts);
  }

  lemma {:induction false} ImplodeSnoc(parts: seq<string>, x: string)
    ensures Implode(parts + [x]) == Implode(parts) + x
  {
    if parts == [] {
      assert [] + [x] == [x];
    } else {
      assert (parts + [x])[1..] == parts[1..] + [x];
      ImplodeSnoc(parts[1..], x);
    }
  }

  /** The address is dropped exactly when it is falsy (null, "" or "0") or exempt. */
  lemma AddressDropped(env: Env)
    ensures !AddressIncluded(env) <==>
              (env.request.remoteAddr.None? || Php.IsEmptyString(env.request.remoteAddr.value)
               || Exempt(env.request.remoteAddr.value, env))
  {
  }

  /** An empty whitelist never exempts a present address, whatever the subnet test says. */
  lemma EmptyWhitelistKeepsAddress(env: Env)
    requires env.whitelist == ""
    requires Php.Truthy(env.request.remoteAddr)
    ensures Fingerprint(env) == env.request.sessKey + env.request.remoteAddr.value + Php.OrEmpty(env.request.userAgent)
  {
  }

  /** A missing user agent contributes nothing. */
  lemma MissingUserAgent(env: Env)
    requires env.request.userAgent.None?
    ensures Fingerprint(env) == env.request.sessKey + (if AddressIncluded(env) then env.request.remoteAddr.value else "")
  {
  }

  /**
    Two requests that differ only in an address that the whitelist exempts
    produce the same fingerprint, so moving inside an exempt range never
    changes the binding.
   */
  lemma ExemptAddressesAgree(env: Env, ip1: string, ip2: string)
    requires Exempt(ip1, env) && Exempt(ip2, env)
    ensures Fingerprint(env.(request := env.request.(remoteAddr := Some(ip1))))
         == Fingerprint(env.(request := env.request.(remoteAddr := Some(ip2))))
  {
  }

  /**
    With no separator, different components can give the same fingerprint:
    session key "ab" with user agent "c" and session key "a" with user agent "bc".
   */
  lemma ComponentsAreAmbiguous(env: Env)
    ensures Fingerprint(env.(request := Request("ab", None, Some("c"))))
         == Fingerprint(env.(request := Request("a", None, Some("bc"))))
  {
  }
}
