/** Accounts: the kind predicates the launcher branches on, the label shown
  * for an account, the authentication-server list and the URL scheme fix-up
  * applied to a server address before it is contacted. */
module AccountUtils {
  import opened Wrappers
  import opened KotlinText

  /** The stored account type: the Microsoft and local tags, or the name of
    * the authentication server an account logged in with. */
  datatype AccountType = MicrosoftType | LocalType | ServerType(serverName: Str)

  /** The account fields the launcher reads. `otherBaseUrl` is set for an
    * account of a third-party authentication server. */
  datatype Account = Account(
    accessToken: Str,
    profileId: Str,
    username: Str,
    xuid: Option<Str>,
    otherBaseUrl: Option<Str>,
    accountType: Option<AccountType>)

  /** `isOtherLoginAccount`: a server URL is recorded and it is not "0". */
  predicate IsOtherLoginAccount(a: Account)
  {
    a.otherBaseUrl.Some? && a.otherBaseUrl.value != "0"
  }

  predicate IsMicrosoftAccount(a: Account) { a.accountType == Some(MicrosoftType) }

  predicate IsLocalAccount(a: Account) { a.accountType == Some(LocalType) }

  /** `isNoLoginRequired`: no account at all, or a local one. */
  predicate IsNoLoginRequired(a: Option<Account>)
  {
    a.None? || IsLocalAccount(a.value)
  }

  /** `isSkinChangeAllowed`: Microsoft and local accounts only. */
  predicate IsSkinChangeAllowed(a: Account)
  {
    IsMicrosoftAccount(a) || IsLocalAccount(a)
  }

  /** A Microsoft or local account never needs a server, and exactly the
    * accounts that do not need a login are the local ones (or none). */
  lemma KindsExclusive(a: Account)
    ensures !(IsMicrosoftAccount(a) && IsLocalAccount(a))
    ensures IsNoLoginRequired(Some(a)) ==> IsSkinChangeAllowed(a)
    ensures IsSkinChangeAllowed(a) && !IsNoLoginRequired(Some(a)) ==> IsMicrosoftAccount(a)
  {
  }

  /** What the account list shows as an account's type. */
  datatype TypeLabel = MicrosoftLabel | LocalLabel | ServerLabel(text: Option<AccountType>)

  /** `getAccountTypeName`: Microsoft first, then a third-party account
    * labelled by its stored type ("Unknown" when absent), else local. */
  function AccountTypeName(a: Account): (r: TypeLabel)
    ensures r == MicrosoftLabel <==> IsMicrosoftAccount(a)
    ensures r.ServerLabel? <==> !IsMicrosoftAccount(a) && IsOtherLoginAccount(a)
    ensures r.ServerLabel? ==> r.text == a.accountType
  {
    if IsMicrosoftAccount(a) then MicrosoftLabel
    else if IsOtherLoginAccount(a) then ServerLabel(a.accountType)
    else LocalLabel
  }

  /** A local account without a server URL is labelled local. */
  lemma LocalLabelled(a: Account)
    requires IsLocalAccount(a) && !IsOtherLoginAccount(a)
    ensures AccountTypeName(a) == LocalLabel
  {
  }

  // ---------------------------------------------------------------------
  // Authentication servers
  // ---------------------------------------------------------------------

  datatype Server = Server(serverName: Str, baseUrl: Str, register: Str)

  predicate UniqueBaseUrls(servers: seq<Server>)
  {
    forall i, j :: 0 <= i < j < |servers| ==> servers[i].baseUrl != servers[j].baseUrl
  }

  /** Adding a server: nothing happens when one with the same base URL is
    * already listed; otherwise it is appended. */
  function AddServer(servers: seq<Server>, s: Server): (r: seq<Server>)
    ensures (exists i :: 0 <= i < |servers| && servers[i].baseUrl == s.baseUrl) ==> r == servers
    ensures (forall i :: 0 <= i < |servers| ==> servers[i].baseUrl != s.baseUrl) ==> r == servers + [s]
  {
    if exists i :: 0 <= i < |servers| && servers[i].baseUrl == s.baseUrl then servers
    else servers + [s]
  }

  /** The server list never gets two entries with the same base URL. */
  lemma AddServerKeepsUnique(servers: seq<Server>, s: Server)
    requires UniqueBaseUrls(servers)
    ensures UniqueBaseUrls(AddServer(servers, s))
    ensures exists i :: 0 <= i < |AddServer(servers, s)| && AddServer(servers, s)[i].baseUrl == s.baseUrl
  {
    var r := AddServer(servers, s);
    if forall i :: 0 <= i < |servers| ==> servers[i].baseUrl != s.baseUrl {
      assert r[|servers|] == s;
    }
  }

  // ---------------------------------------------------------------------
  // addHttpsIfMissing
  // ---------------------------------------------------------------------

  /** Kotlin's `startsWith(prefix, ignoreCase = true)` on ASCII letters. */
  predicate StartsWithIgnoreCase(s: Str, p: Str)
  {
    StartsWith(Lowercase(s), Lowercase(p))
  }

  /** `addHttpsIfMissing` as written: "http://" is recognised in any case but
    * "https://" only in lower case, so "HTTPS://host" gets a second scheme. */
  function AddHttpsIfMissingAsWritten(baseUrl: Str): (r: Str)
    ensures StartsWith(baseUrl, "https://") || StartsWithIgnoreCase(baseUrl, "http://") ==> r == Lowercase(baseUrl)
    ensures !StartsWithIgnoreCase(baseUrl, "http://") && !StartsWith(baseUrl, "https://") ==>
      r == "https://" + Lowercase(baseUrl)
    ensures |r| >= |baseUrl|
  {
    if !StartsWithIgnoreCase(baseUrl, "http://") && !StartsWith(baseUrl, "https://") then
      LowercaseAppend("https://", baseUrl);
      Lowercase("https://" + baseUrl)
    else Lowercase(baseUrl)
  }

  /** The upper-case https address that gets a doubled scheme. */
  lemma DoubledSchemeAsWritten()
    ensures AddHttpsIfMissingAsWritten("HTTPS://x") == "https://https://x"
  {
    UpperHttpsNotHttp();
    UpperHttpsNotLowerHttps();
    LowerDoubled();
  }

  lemma UpperHttpsNotHttp()
    ensures !StartsWithIgnoreCase("HTTPS://x", "http://")
  {
    assert Lowercase("HTTPS://x")[4] == 's' && Lowercase("http://")[4] == ':';
  }

  lemma UpperHttpsNotLowerHttps()
    ensures !StartsWith("HTTPS://x", "https://")
  {
    assert "HTTPS://x"[0] != "https://"[0];
  }

  lemma LowerDoubled()
    ensures Lowercase("https://" + "HTTPS://x") == "https://https://x"
  {
    assert "https://" + "HTTPS://x" == "https://HTTPS://x";
    assert Lowercase("https://HTTPS://x") == "https://https://x";
  }

  /** The scheme fix-up with both schemes recognised in any case: an address
    * that has a scheme is only lower-cased, one without gets "https://". */
  function AddHttpsIfMissing(baseUrl: Str): (r: Str)
    ensures StartsWithIgnoreCase(baseUrl, "http://") || StartsWithIgnoreCase(baseUrl, "https://") ==>
      r == Lowercase(baseUrl)
    ensures !StartsWithIgnoreCase(baseUrl, "http://") && !StartsWithIgnoreCase(baseUrl, "https://") ==>
      r == "https://" + Lowercase(baseUrl)
  {
    if !StartsWithIgnoreCase(baseUrl, "http://") && !StartsWithIgnoreCase(baseUrl, "https://") then
      LowercaseAppend("https://", baseUrl);
      Lowercase("https://" + baseUrl)
    else Lowercase(baseUrl)
  }

  lemma LowercaseAppend(a: Str, b: Str)
    ensures Lowercase(a + b) == Lowercase(a) + Lowercase(b)
  {
  }

  lemma LowercaseIdempotent(s: Str)
    ensures Lowercase(Lowercase(s)) == Lowercase(s)
  {
  }

  /** The result always carries a lower-case scheme, and fixing it again
    * changes nothing: no address ever gets two schemes. */
  lemma AddHttpsIdempotent(baseUrl: Str)
    ensures StartsWith(AddHttpsIfMissing(baseUrl), "http://") || StartsWith(AddHttpsIfMissing(baseUrl), "https://")
    ensures AddHttpsIfMissing(AddHttpsIfMissing(baseUrl)) == AddHttpsIfMissing(baseUrl)
  {
    var r := AddHttpsIfMissing(baseUrl);
    LowercaseIdempotent(baseUrl);
    LowercaseIdempotent(r);
    if StartsWithIgnoreCase(baseUrl, "http://") {
      assert Lowercase(baseUrl)[..7] == Lowercase("http://");
      assert Lowercase("http://") == "http://";
      assert StartsWithIgnoreCase(r, "http://");
    } else if StartsWithIgnoreCase(baseUrl, "https://") {
      assert Lowercase("https://") == "https://";
      assert StartsWithIgnoreCase(r, "https://");
    } else {
      assert r[..8] == "https://";
      assert Lowercase(r)[..8] == "https://";
      assert Lowercase("https://") == "https://";
      assert StartsWithIgnoreCase(r, "https://");
    }
  }
}
