/**
 * The identity switcher (set_user.go `setUser`): look up the target user,
 * parse its uid and gid, re-own the working directory, record the
 * credential and rewrite the identity variables of the environment.
 *
 * The user database, the recursive chown and the process attributes are
 * inputs and record fields; the environment rewrite is modelled exactly.
 */
module Identity {
  import opened Wrappers
  import opened Words
  import opened Decimal

  const UserPrefix: string := "USER="
  const UserNamePrefix: string := "USERNAME="
  const HomePrefix: string := "HOME="

  predicate HasPrefix(s: string, p: string) {
    |p| <= |s| && s[..|p|] == p
  }

  /**
   * The entries `^USER=.*`, `^USERNAME=.*` or `^HOME=.*` match: since `.*`
   * may match nothing, each pattern holds exactly of the strings with that
   * prefix.
   */
  predicate IsIdentityEntry(e: string) {
    HasPrefix(e, UserPrefix) || HasPrefix(e, UserNamePrefix) || HasPrefix(e, HomePrefix)
  }

  /** How many entries of `env` start with `p`. */
  function CountPrefix(env: seq<string>, p: string): nat
    decreases |env|
  {
    if |env| == 0 then 0
    else (if HasPrefix(env[0], p) then 1 else 0) + CountPrefix(env[1..], p)
  }

  /** How many entries of `env` are identity entries. */
  function CountIdentity(env: seq<string>): nat
    decreases |env|
  {
    if |env| == 0 then 0
    else (if IsIdentityEntry(env[0]) then 1 else 0) + CountIdentity(env[1..])
  }

  /** `xs` is `ys` with some entries left out, the rest in their original order. */
  predicate IsSubsequence<T(==)>(xs: seq<T>, ys: seq<T>)
    decreases |ys|
  {
    if |ys| == 0 then |xs| == 0
    else (|xs| > 0 && xs[0] == ys[0] && IsSubsequence(xs[1..], ys[1..]))
         || IsSubsequence(xs, ys[1..])
  }

  /** The filtering loop: keep the entries that are not identity entries. */
  function DropIdentity(env: seq<string>): (kept: seq<string>)
    ensures forall i :: 0 <= i < |kept| ==> !IsIdentityEntry(kept[i])
    ensures forall i :: 0 <= i < |env| && !IsIdentityEntry(env[i]) ==> env[i] in kept
    ensures |kept| == |env| - CountIdentity(env)
    ensures IsSubsequence(kept, env)
    decreases |env|
  {
    if |env| == 0 then []
    else if IsIdentityEntry(env[0]) then DropIdentity(env[1..])
    else [env[0]] + DropIdentity(env[1..])
  }

  function IdentityEntries(username: string, homeDir: string): seq<string> {
    [UserPrefix + username, UserNamePrefix + username, HomePrefix + homeDir]
  }

  /**
   * The environment `setUser` leaves on the command: the non-identity
   * entries in their original order, then `USER`, `USERNAME` and `HOME`
   * for the target user.
   */
  function RewriteEnv(env: seq<string>, username: string, homeDir: string): (r: seq<string>)
    ensures |r| >= 3
    ensures |r| == |env| - CountIdentity(env) + 3
    ensures r[|r| - 3] == "USER=" + username
    ensures r[|r| - 2] == "USERNAME=" + username
    ensures r[|r| - 1] == "HOME=" + homeDir
    ensures forall i :: 0 <= i < |r| - 3 ==> !IsIdentityEntry(r[i])
    ensures IsSubsequence(r[..|r| - 3], env)
    ensures forall i :: 0 <= i < |env| && !IsIdentityEntry(env[i]) ==> env[i] in r[..|r| - 3]
  {
    var kept := DropIdentity(env);
    var r := kept + IdentityEntries(username, homeDir);
    assert r[..|r| - 3] == kept;
    r
  }

  // ---------------------------------------------------------------------
  // Properties of the rewrite.

  lemma IdentityEntriesAreIdentity(username: string, homeDir: string)
    ensures forall e :: e in IdentityEntries(username, homeDir) ==> IsIdentityEntry(e)
  {
    var u, n, h := UserPrefix + username, UserNamePrefix + username, HomePrefix + homeDir;
    assert u[..|UserPrefix|] == UserPrefix;
    assert n[..|UserNamePrefix|] == UserNamePrefix;
    assert h[..|HomePrefix|] == HomePrefix;
  }

  lemma {:induction false} DropAppend(a: seq<string>, b: seq<string>)
    ensures DropIdentity(a + b) == DropIdentity(a) + DropIdentity(b)
    decreases |a|
  {
    if |a| > 0 {
      assert (a + b)[1..] == a[1..] + b;
      DropAppend(a[1..], b);
    } else {
      assert a + b == b;
    }
  }

  lemma {:induction false} DropNone(env: seq<string>)
    requires forall i :: 0 <= i < |env| ==> !IsIdentityEntry(env[i])
    ensures DropIdentity(env) == env
    decreases |env|
  {
    if |env| > 0 {
      DropNone(env[1..]);
    }
  }

  lemma {:induction false} DropAll(env: seq<string>)
    requires forall e :: e in env ==> IsIdentityEntry(e)
    ensures DropIdentity(env) == []
    decreases |env|
  {
    if |env| > 0 {
      assert env[0] in env;
      DropAll(env[1..]);
    }
  }

  /** Rewriting an already rewritten environment for the same user changes nothing. */
  lemma RewriteIdempotent(env: seq<string>, username: string, homeDir: string)
    ensures RewriteEnv(RewriteEnv(env, username, homeDir), username, homeDir)
            == RewriteEnv(env, username, homeDir)
  {
    var kept := DropIdentity(env);
    var tail := IdentityEntries(username, homeDir);
    var once := RewriteEnv(env, username, homeDir);
    assert once == kept + tail;
    DropAppend(kept, tail);
    DropNone(kept);
    IdentityEntriesAreIdentity(username, homeDir);
    DropAll(tail);
  }

  lemma {:induction false} CountPrefixAppend(a: seq<string>, b: seq<string>, p: string)
    ensures CountPrefix(a + b, p) == CountPrefix(a, p) + CountPrefix(b, p)
    decreases |a|
  {
    if |a| > 0 {
      assert (a + b)[1..] == a[1..] + b;
      CountPrefixAppend(a[1..], b, p);
    } else {
      assert a + b == b;
    }
  }

  lemma {:induction false} CountPrefixNone(env: seq<string>, p: string)
    requires forall i :: 0 <= i < |env| ==> !HasPrefix(env[i], p)
    ensures CountPrefix(env, p) == 0
    decreases |env|
  {
    if |env| > 0 {
      CountPrefixNone(env[1..], p);
    }
  }

  /** Each appended entry starts with its own prefix and with neither of the other two. */
  lemma IdentityEntryPrefixes(username: string, homeDir: string)
    ensures var tail := IdentityEntries(username, homeDir);
      && HasPrefix(tail[0], UserPrefix) && !HasPrefix(tail[0], UserNamePrefix) && !HasPrefix(tail[0], HomePrefix)
      && !HasPrefix(tail[1], UserPrefix) && HasPrefix(tail[1], UserNamePrefix) && !HasPrefix(tail[1], HomePrefix)
      && !HasPrefix(tail[2], UserPrefix) && !HasPrefix(tail[2], UserNamePrefix) && HasPrefix(tail[2], HomePrefix)
  {
    var tail := IdentityEntries(username, homeDir);
    IdentityEntriesAreIdentity(username, homeDir);
    assert tail[0][..|UserPrefix|] == UserPrefix;
    assert tail[1][..|UserNamePrefix|] == UserNamePrefix;
    assert tail[2][..|HomePrefix|] == HomePrefix;
    // `USER=...` has '=' where `USERNAME=` has 'N'; `HOME=` differs at the first character.
    assert tail[0][4] == '=' && UserNamePrefix[4] == 'N';
    assert tail[1][4] == 'N' && UserPrefix[4] == '=';
    assert tail[0][0] == 'U' && tail[1][0] == 'U' && HomePrefix[0] == 'H';
    assert tail[2][0] == 'H' && UserPrefix[0] == 'U' && UserNamePrefix[0] == 'U';
  }

  lemma CountPrefixTail(username: string, homeDir: string, p: string)
    requires p == UserPrefix || p == UserNamePrefix || p == HomePrefix
    ensures CountPrefix(IdentityEntries(username, homeDir), p) == 1
  {
    var tail := IdentityEntries(username, homeDir);
    IdentityEntryPrefixes(username, homeDir);
    var t1, t2 := tail[1..], tail[2..];
    assert t1[0] == tail[1] && t1[1..] == t2;
    assert t2[0] == tail[2] && t2[1..] == [];
    assert CountPrefix(t2, p) == (if HasPrefix(tail[2], p) then 1 else 0);
    assert CountPrefix(t1, p) == (if HasPrefix(tail[1], p) then 1 else 0) + CountPrefix(t2, p);
  }

  /** After the rewrite each of `USER=`, `USERNAME=` and `HOME=` starts exactly one entry. */
  lemma RewriteSetsEachVariableOnce(env: seq<string>, username: string, homeDir: string, p: string)
    requires p == UserPrefix || p == UserNamePrefix || p == HomePrefix
    ensures CountPrefix(RewriteEnv(env, username, homeDir), p) == 1
  {
    var kept := DropIdentity(env);
    var tail := IdentityEntries(username, homeDir);
    assert RewriteEnv(env, username, homeDir) == kept + tail;
    CountPrefixAppend(kept, tail, p);
    CountPrefixNone(kept, p);
    CountPrefixTail(username, homeDir, p);
  }

  /** The one entry with each prefix carries the target user's value. */
  lemma RewriteCarriesUserValues(env: seq<string>, username: string, homeDir: string)
    ensures var r := RewriteEnv(env, username, homeDir);
      && (forall i :: 0 <= i < |r| && HasPrefix(r[i], UserPrefix) ==> r[i] == UserPrefix + username)
      && (forall i :: 0 <= i < |r| && HasPrefix(r[i], UserNamePrefix) ==> r[i] == UserNamePrefix + username)
      && (forall i :: 0 <= i < |r| && HasPrefix(r[i], HomePrefix) ==> r[i] == HomePrefix + homeDir)
  {
    var r := RewriteEnv(env, username, homeDir);
    IdentityEntryPrefixes(username, homeDir);
    forall i | 0 <= i < |r|
      ensures HasPrefix(r[i], UserPrefix) ==> r[i] == UserPrefix + username
      ensures HasPrefix(r[i], UserNamePrefix) ==> r[i] == UserNamePrefix + username
      ensures HasPrefix(r[i], HomePrefix) ==> r[i] == HomePrefix + homeDir
    {
      if i < |r| - 3 {
        assert !IsIdentityEntry(r[i]);
      }
    }
  }

  // ---------------------------------------------------------------------
  // setUser.

  /** The fields of `user.User` that `setUser` reads; uid and gid are text. */
  datatype User = User(username: string, uid: string, gid: string, homeDir: string)

  /** `syscall.Credential`, reduced to the two fields `setUser` sets. */
  datatype Credential = Credential(uid: Uint32, gid: Uint32)

  /** The parts of `exec.Cmd` that `setUser` reads or writes. */
  datatype Cmd = Cmd(dir: string, env: seq<string>, credential: Option<Credential>)

  datatype SetUserError =
    | UnknownUser            // user.Lookup failed
    | BadUid(ParseError)     // the uid is not a 32-bit decimal
    | BadGid(ParseError)     // the gid is not a 32-bit decimal
    | ChownFailed            // chownR failed

  /** The command after the call, and the error the call returned, if any. */
  datatype SetUserOutcome = SetUserOutcome(cmd: Cmd, err: Option<SetUserError>)

  /**
   * `setUser(cmd, spec)` for `spec.User == userName`. `users` plays
   * `user.Lookup`; `chownR(dir, uid, gid)` says whether re-owning the tree
   * under `dir` succeeds. Every failure returns before the command is
   * touched.
   */
  function SetUser(cmd: Cmd, userName: string, users: map<string, User>,
                   chownR: (string, Uint32, Uint32) -> bool): (r: SetUserOutcome)
    ensures r.err.Some? ==> r.cmd == cmd
    ensures r.err == Some(UnknownUser) <==> userName !in users
    ensures userName in users && !IsUint32Decimal(users[userName].uid) ==>
              r.err == Some(BadUid(ParseUint32(users[userName].uid).error))
    ensures userName in users && IsUint32Decimal(users[userName].uid)
              && !IsUint32Decimal(users[userName].gid) ==>
              r.err == Some(BadGid(ParseUint32(users[userName].gid).error))
    ensures r.err == Some(ChownFailed) <==>
              && userName in users
              && IsUint32Decimal(users[userName].uid)
              && IsUint32Decimal(users[userName].gid)
              && !chownR(cmd.dir, DecimalValue(users[userName].uid), DecimalValue(users[userName].gid))
    ensures r.err.None? <==>
              && userName in users
              && IsUint32Decimal(users[userName].uid)
              && IsUint32Decimal(users[userName].gid)
              && chownR(cmd.dir, DecimalValue(users[userName].uid), DecimalValue(users[userName].gid))
    ensures r.err.None? ==>
              var u := users[userName];
              && r.cmd.dir == cmd.dir
              && r.cmd.credential == Some(Credential(DecimalValue(u.uid), DecimalValue(u.gid)))
              && r.cmd.env == RewriteEnv(cmd.env, u.username, u.homeDir)
  {
    if userName !in users then SetUserOutcome(cmd, Some(UnknownUser))
    else
      var runAs := users[userName];
      match ParseUint32(runAs.uid)
      case Failure(e) => SetUserOutcome(cmd, Some(BadUid(e)))
      case Success(uid) =>
        match ParseUint32(runAs.gid)
        case Failure(e) => SetUserOutcome(cmd, Some(BadGid(e)))
        case Success(gid) =>
          if !chownR(cmd.dir, uid, gid) then SetUserOutcome(cmd, Some(ChownFailed))
          else
            var env := RewriteEnv(cmd.env, runAs.username, runAs.homeDir);
            SetUserOutcome(Cmd(cmd.dir, env, Some(Credential(uid, gid))), None)
  }
}
