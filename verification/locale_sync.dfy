/**
 * The locale-cookie synchronisation of components/LocaleSync.tsx: when the
 * signed-in user's language differs from the `NEXT_LOCALE` cookie, write
 * the cookie and reload the page once.  The browser is replaced by
 * parameters: the cookie text before the write, the cookie text the browser
 * reports after it (whether it accepted the write is its own business), the
 * page protocol, the configured cookie domain and the session storage.
 */
module LocaleSync {
  import opened Common
  import Strings
  import I18nConfig

  const CookieName: string := "NEXT_LOCALE"

  /** The locale list the component hard-codes. */
  const SupportedLocales: seq<string> := ["en", "es-ES", "it-IT"]

  /** isSupportedLocale. */
  predicate IsSupportedLocale(locale: string) {
    locale in SupportedLocales
  }

  /** The component's list is the one the configuration exports, so both accept the same locales. */
  lemma SupportedLocalesAgree()
    ensures SupportedLocales == I18nConfig.SupportedLocales
    ensures forall l :: IsSupportedLocale(l) <==> l == "en" || l == "es-ES" || l == "it-IT"
  {
  }

  /** `entries.find(pred)`. */
  function FindFirst(entries: seq<string>, prefix: string): (r: Option<string>)
    ensures r.Some? ==> r.value in entries && Strings.StartsWith(r.value, prefix)
    ensures r.None? ==> forall i :: 0 <= i < |entries| ==> !Strings.StartsWith(entries[i], prefix)
    decreases |entries|
  {
    if |entries| == 0 then None
    else if Strings.StartsWith(entries[0], prefix) then Some(entries[0])
    else FindFirst(entries[1..], prefix)
  }

  /**
   * `cookie.split('; ').find(e => e.startsWith('NEXT_LOCALE='))?.split('=')[1]`:
   * the text between the first and second `=` of the first locale entry.
   */
  function CookieLocale(cookie: string): (r: Option<string>)
    ensures r.Some? ==> '=' !in r.value
  {
    match FindFirst(Strings.Split(cookie, "; "), CookieName + "=")
    case None => None
    case Some(entry) =>
      var pieces := Strings.Split(entry, "=");
      Strings.SplitCharPiecesFree(entry, '=');
      if |pieces| >= 2 then Some(pieces[1]) else None
  }

  /** `365 * 24 * 60 * 60` seconds, written in decimal. */
  const MaxAgeSeconds: nat := 365 * 24 * 60 * 60

  function DigitChar(d: nat): char
    requires d < 10
  {
    "0123456789"[d]
  }

  /** The decimal spelling of a natural number, as a template literal prints it. */
  function Decimal(n: nat): (r: string)
    ensures |r| > 0
    decreases n
  {
    if n < 10 then [DigitChar(n)] else Decimal(n / 10) + [DigitChar(n % 10)]
  }

  /** The attributes written with the cookie, in order. */
  function CookieParts(language: string, https: bool, domain: Option<string>): seq<string> {
    [CookieName + "=" + language, "path=/", "max-age=" + Decimal(MaxAgeSeconds), "samesite=lax"]
      + (if https then ["secure"] else [])
      + (if Truthy(domain) then ["domain=" + domain.value] else [])
  }

  /** The text assigned to `document.cookie`. */
  function CookieString(language: string, https: bool, domain: Option<string>): string {
    Strings.Join(CookieParts(language, https, domain), "; ")
  }

  lemma MaxAgeText()
    ensures Decimal(MaxAgeSeconds) == "31536000"
  {
  }

  /**
   * The written cookie is `NEXT_LOCALE=<language>; path=/; max-age=31536000;
   * samesite=lax`, then `; secure` exactly on https and `; domain=<d>`
   * exactly when a domain is configured.
   */
  lemma CookiePartsFormat(language: string, https: bool, domain: Option<string>)
    ensures var parts := CookieParts(language, https, domain);
      && |parts| >= 4
      && parts[..4] == ["NEXT_LOCALE=" + language, "path=/", "max-age=31536000", "samesite=lax"]
      && ("secure" in parts[4..] <==> https)
      && (forall d :: "domain=" + d in parts[4..] <==> Truthy(domain) && d == domain.value)
  {
    var parts := CookieParts(language, https, domain);
    MaxAgeText();
    assert CookieName + "=" + language == "NEXT_LOCALE=" + language;
    assert "max-age=" + Decimal(MaxAgeSeconds) == "max-age=31536000";
    assert parts[..4] == ["NEXT_LOCALE=" + language, "path=/", "max-age=31536000", "samesite=lax"];
    var tail := parts[4..];
    if https && Truthy(domain) {
      assert tail == ["secure", "domain=" + domain.value];
    } else if https {
      assert tail == ["secure"];
    } else if Truthy(domain) {
      assert tail == ["domain=" + domain.value];
      assert ("domain=" + domain.value)[0] != "secure"[0];
    } else {
      assert tail == [];
    }
    forall d | "domain=" + d in tail ensures Truthy(domain) && d == domain.value {
      assert |"domain=" + d| > |"secure"|;
      assert ("domain=" + d)[7..] == d;
    }
  }

  /** No attribute of the cookie of a supported language contains `;` when the domain does not. */
  lemma CookiePartsFree(language: string, https: bool, domain: Option<string>)
    requires IsSupportedLocale(language)
    requires domain.Some? ==> ';' !in domain.value
    ensures forall i :: 0 <= i < |CookieParts(language, https, domain)| ==> ';' !in CookieParts(language, https, domain)[i]
  {
    MaxAgeText();
  }

  /**
   * Splitting the written cookie on `; ` gives back its attributes, and
   * reading it with the component's own lookup gives back the language.
   */
  lemma CookieStringRoundTrip(language: string, https: bool, domain: Option<string>)
    requires IsSupportedLocale(language)
    requires domain.Some? ==> ';' !in domain.value
    ensures Strings.Split(CookieString(language, https, domain), "; ") == CookieParts(language, https, domain)
    ensures CookieLocale(CookieString(language, https, domain)) == Some(language)
  {
    var parts := CookieParts(language, https, domain);
    CookiePartsFree(language, https, domain);
    Strings.SplitJoin(parts, "; ");
    assert Strings.StartsWith(parts[0], CookieName + "=");
    FindFirstAt(parts, CookieName + "=", 0);
    EntryValue(language);
  }

  /** The value of a `NEXT_LOCALE=<v>` entry is `v`. */
  lemma EntryValue(v: string)
    requires '=' !in v
    ensures Strings.Split(CookieName + "=" + v, "=") == [CookieName, v]
  {
    Strings.SplitAtFirstSep(CookieName, "=", v);
    Strings.SplitWithoutSep(v, "=");
  }

  /**
   * The value of an entry is the text between its first and second `=`:
   * anything from a second `=` on is ignored.
   */
  lemma EntryValueWithTail(v: string, rest: string)
    requires '=' !in v
    requires rest == "" || rest[0] == '='
    ensures var pieces := Strings.Split(CookieName + "=" + v + rest, "=");
      |pieces| >= 2 && pieces[1] == v
  {
    if rest == "" {
      assert CookieName + "=" + v + rest == CookieName + "=" + v;
      EntryValue(v);
    } else {
      var tail := rest[1..];
      assert rest == "=" + tail;
      Strings.SplitAtFirstSep(v, "=", tail);
      assert CookieName + "=" + v + rest == CookieName + "=" + (v + "=" + tail);
      Strings.SplitAtFirstSep(CookieName, "=", v + "=" + tail);
    }
  }

  /**
   * Reading a cookie jar `name=value; name=value; …` finds the value of the
   * first `NEXT_LOCALE` entry, whatever entries come after it; in an entry
   * `NEXT_LOCALE=v=…` the value is `v`.
   */
  lemma {:induction false} CookieLocaleOfJar(entries: seq<string>, before: nat, v: string, rest: string)
    requires 0 < |entries| && before < |entries|
    requires forall i :: 0 <= i < |entries| ==> ';' !in entries[i]
    requires forall i :: 0 <= i < before ==> !Strings.StartsWith(entries[i], CookieName + "=")
    requires entries[before] == CookieName + "=" + v + rest && '=' !in v
    requires rest == "" || rest[0] == '='
    ensures CookieLocale(Strings.Join(entries, "; ")) == Some(v)
  {
    Strings.SplitJoin(entries, "; ");
    assert Strings.StartsWith(entries[before], CookieName + "=") by {
      assert entries[before] == (CookieName + "=") + (v + rest);
    }
    FindFirstAt(entries, CookieName + "=", before);
    EntryValueWithTail(v, rest);
  }

  lemma {:induction false} FindFirstAt(entries: seq<string>, prefix: string, k: nat)
    requires k < |entries| && Strings.StartsWith(entries[k], prefix)
    requires forall i :: 0 <= i < k ==> !Strings.StartsWith(entries[i], prefix)
    ensures FindFirst(entries, prefix) == Some(entries[k])
    decreases k
  {
    if k > 0 {
      FindFirstAt(entries[1..], prefix, k - 1);
    }
  }

  /** What one run of the effect does. */
  datatype Outcome = Outcome(cookieWritten: Option<string>, storage: map<string, string>, reload: bool)

  function ReloadKey(language: string): string {
    "locale-sync:" + language
  }

  /**
   * The effect body.  `cookieBefore` is `document.cookie` when the effect
   * starts and `cookieAfter` what it reads right after assigning the new
   * cookie.
   */
  function Sync(language: Option<string>, cookieBefore: string, cookieAfter: string, https: bool,
                domain: Option<string>, storage: map<string, string>): (r: Outcome)
    ensures r.reload ==> r.cookieWritten.Some?
    ensures forall k :: k in storage && (language.None? || k != ReloadKey(language.value)) ==>
              k in r.storage && r.storage[k] == storage[k]
    ensures forall k :: k in r.storage ==> k in storage || (language.Some? && k == ReloadKey(language.value))
  {
    if !Truthy(language) || !IsSupportedLocale(language.value) then Outcome(None, storage, false)
    else
      var lang := language.value;
      if CookieLocale(cookieBefore) == Some(lang) then Outcome(None, storage, false)
      else
        var key := ReloadKey(lang);
        var alreadyReloaded := key in storage && storage[key] == "1";
        var written := CookieString(lang, https, domain);
        if CookieLocale(cookieAfter) == Some(lang) && !alreadyReloaded then
          Outcome(Some(written), storage[key := "1"], true)
        else if alreadyReloaded then
          Outcome(Some(written), storage - {key}, false)
        else
          Outcome(Some(written), storage, false)
  }

  /** A missing, empty or unsupported language, or a cookie that already matches, leaves everything alone. */
  lemma NothingToDo(language: Option<string>, cookieBefore: string, cookieAfter: string, https: bool,
                    domain: Option<string>, storage: map<string, string>)
    requires !Truthy(language) || !IsSupportedLocale(language.value) || CookieLocale(cookieBefore) == language
    ensures Sync(language, cookieBefore, cookieAfter, https, domain, storage) == Outcome(None, storage, false)
  {
  }

  /**
   * Otherwise the cookie is written, and the page reloads exactly when the
   * browser now reports the language and the reload flag for it was not
   * set; a reload sets the flag, and a set flag is cleared instead.
   */
  lemma SyncDecision(language: string, cookieBefore: string, cookieAfter: string, https: bool,
                     domain: Option<string>, storage: map<string, string>)
    requires IsSupportedLocale(language) && CookieLocale(cookieBefore) != Some(language)
    ensures var r := Sync(Some(language), cookieBefore, cookieAfter, https, domain, storage);
      var flagged := ReloadKey(language) in storage && storage[ReloadKey(language)] == "1";
      && r.cookieWritten == Some(CookieString(language, https, domain))
      && (r.reload <==> CookieLocale(cookieAfter) == Some(language) && !flagged)
      && (r.reload ==> ReloadKey(language) in r.storage && r.storage[ReloadKey(language)] == "1")
      && (flagged ==> ReloadKey(language) !in r.storage)
  {
  }

  /**
   * At most one reload in a row: after a run that reloads, the next run for
   * the same language (whatever the cookies then say) does not reload.
   */
  lemma NoSecondReload(language: Option<string>, cookieBefore: string, cookieAfter: string, https: bool,
                       domain: Option<string>, storage: map<string, string>,
                       cookieBefore2: string, cookieAfter2: string)
    requires Sync(language, cookieBefore, cookieAfter, https, domain, storage).reload
    ensures !Sync(language, cookieBefore2, cookieAfter2, https, domain,
                  Sync(language, cookieBefore, cookieAfter, https, domain, storage).storage).reload
  {
  }
}
