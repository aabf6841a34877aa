/**
  The pure part of `main` (index.js): stop with exit code 1 when no account
  was loaded, otherwise pair every account with a proxy, round-robin over
  the proxy list, or with none when that list is empty.
 */
module Bootstrap {
  import opened Wrappers
  import opened JsText
  import opened Loading

  /** The exit code when the accounts file yields no account. */
  const NoAccountsExitCode: int := 1

  /** One per-account task as `main` launches it. */
  datatype Runner = Runner(account: Account, proxy: Option<string>)

  /** What start-up leads to: an early exit, or the runners to launch. */
  datatype Launch = Exit(code: int) | Started(runners: seq<Runner>)

  /** `proxies.length > 0 ? proxies[index % proxies.length] : null`. */
  function ProxyFor(proxies: seq<string>, index: nat): (p: Option<string>)
    ensures p.None? <==> proxies == []
    ensures p.Some? ==> p.value in proxies
  {
    if |proxies| > 0 then Some(proxies[index % |proxies|]) else None
  }

  /** The first lap hands out the proxies in list order. */
  lemma ProxyForFirstLap(proxies: seq<string>, index: nat)
    requires index < |proxies|
    ensures ProxyFor(proxies, index) == Some(proxies[index])
  {
  }

  /** The assignment repeats every `|proxies|` accounts. */
  lemma ProxyForPeriodic(proxies: seq<string>, index: nat)
    requires proxies != []
    ensures ProxyFor(proxies, index + |proxies|) == ProxyFor(proxies, index)
  {
    ModShift(index, |proxies|);
  }

  /** Shifting by the modulus leaves the remainder unchanged. */
  lemma ModShift(a: nat, n: nat)
    requires n > 0
    ensures (a + n) % n == a % n
  {
    var q, r := a / n, a % n;
    var q', r' := (a + n) / n, (a + n) % n;
    assert n * (q + 1 - q') == r' - r;
    var d := q + 1 - q';
    if d > 0 {
      MulAtLeast(n, d);
    }
  }

  lemma {:induction false} MulAtLeast(n: nat, d: nat)
    requires d >= 1
    ensures n * d >= n
    decreases d
  {
    if d > 1 {
      MulAtLeast(n, d - 1);
      assert n * d == n * (d - 1) + n;
    }
  }

  /** With distinct proxies, account `index` gets the proxy at position `j`
      exactly when `index` is `j` modulo the number of proxies. */
  lemma ProxyForExactly(proxies: seq<string>, index: nat, j: nat)
    requires j < |proxies|
    requires forall a, b :: 0 <= a < b < |proxies| ==> proxies[a] != proxies[b]
    ensures ProxyFor(proxies, index) == Some(proxies[j]) <==> index % |proxies| == j
  {
  }

  /** `accounts.map((account, index) => runAccount(account, proxyFor(index)))`. */
  function AssignProxies(accounts: seq<Account>, proxies: seq<string>): (runners: seq<Runner>)
    ensures |runners| == |accounts|
    ensures forall i :: 0 <= i < |runners| ==> runners[i].account == accounts[i]
    ensures forall i :: 0 <= i < |runners| ==> (runners[i].proxy.None? <==> proxies == [])
    ensures forall i :: 0 <= i < |runners| && runners[i].proxy.Some? ==> runners[i].proxy.value in proxies
    ensures proxies != [] ==> forall i :: 0 <= i < |runners| ==> runners[i].proxy == Some(proxies[i % |proxies|])
  {
    seq(|accounts|, i requires 0 <= i < |accounts| => Runner(accounts[i], ProxyFor(proxies, i)))
  }

  /** With at least as many accounts as proxies, every proxy is used, the
      one at position `j` by account `j` first. */
  lemma EveryProxyUsed(accounts: seq<Account>, proxies: seq<string>)
    requires |proxies| <= |accounts|
    ensures forall j :: 0 <= j < |proxies| ==> AssignProxies(accounts, proxies)[j].proxy == Some(proxies[j])
  {
    forall j | 0 <= j < |proxies| ensures AssignProxies(accounts, proxies)[j].proxy == Some(proxies[j]) {
      ProxyForFirstLap(proxies, j);
    }
  }

  /** Start-up after both files are read: `accountsText` and `proxyText`
      are their contents. */
  function Startup(accountsText: string, proxyText: string): (l: Launch)
    ensures l.Exit? <==> AllWhitespace(accountsText)
    ensures l.Exit? ==> l.code == NoAccountsExitCode
    ensures l.Started? ==> |l.runners| == |ParseAccounts(accountsText)| > 0
    ensures l.Started? ==> forall i :: 0 <= i < |l.runners| ==> l.runners[i].account == ParseAccounts(accountsText)[i]
    ensures l.Started? ==> forall i :: 0 <= i < |l.runners| ==> (l.runners[i].proxy.None? <==> AllWhitespace(proxyText))
    ensures l.Started? ==> forall i :: 0 <= i < |l.runners| && l.runners[i].proxy.Some? ==> l.runners[i].proxy.value in ParseProxies(proxyText)
    ensures l.Started? ==> forall i :: 0 <= i < |l.runners| ==> l.runners[i].proxy == ProxyFor(ParseProxies(proxyText), i)
  {
    var accounts := ParseAccounts(accountsText);
    var proxies := ParseProxies(proxyText);
    ParseAccountsEmptyIff(accountsText);
    LinesEmptyIff(proxyText);
    if |accounts| == 0 then Exit(NoAccountsExitCode) else Started(AssignProxies(accounts, proxies))
  }

  lemma UnproxiedPair(a: Account, b: Account)
    ensures AssignProxies([a, b], []) == [Runner(a, None), Runner(b, None)]
  {
    var runners := AssignProxies([a, b], []);
    assert runners[0] == Runner(a, None) && runners[1] == Runner(b, None);
  }

  /** An empty proxy file leaves every loaded account unproxied. */
  lemma StartupWithoutProxies(accountsText: string, proxyText: string)
    requires !AllWhitespace(accountsText)
    requires AllWhitespace(proxyText)
    ensures Startup(accountsText, proxyText) == Started(AssignProxies(ParseAccounts(accountsText), []))
  {
    ParseAccountsEmptyIff(accountsText);
    LinesEmptyIff(proxyText);
  }

  /** Two account lines, the second without a label, and an empty proxy
      file: two runners, neither proxied, the second labelled with its whole
      token when that is at most 15 characters long (`abc123,Alice` and
      `def456`, say). */
  lemma StartupTwoAccountsNoProxies(token1: string, label1: string, token2: string)
    requires token1 != [] && Trim(token1) == token1 && ',' !in token1 && '\n' !in token1
    requires label1 != [] && Trim(label1) == label1 && ',' !in label1 && '\n' !in label1
    requires token2 != [] && Trim(token2) == token2 && ',' !in token2 && '\n' !in token2
    requires |token2| <= LabelPrefixLength
    ensures Startup(token1 + "," + label1 + "\n" + token2, "")
         == Started([Runner(Account(token1, label1), None), Runner(Account(token2, token2), None)])
  {
    TwoAccountLines(token1, label1, token2);
    assert AllWhitespace("");
    StartupWithoutProxies(token1 + "," + label1 + "\n" + token2, "");
    UnproxiedPair(Account(token1, label1), Account(token2, token2));
  }
}
