/** The request handlers of nestor.py: `check_login` and the decision logic
    of the `/login` and `/auth` views. The HTTP framework is replaced by
    plain values: a request is its method, URL path, the `nestor` cookie and
    the login form; a response is one of the four shapes the views build. */
module Views {
  import opened Wrappers
  import opened Auths
  import opened Cookie

  /** Process-wide settings: `SECRET_KEY` (already UTF-8 encoded),
      `PASSWORD`, and the framing the cookie decoder uses (the source's is
      `SplitAtFirstSeparator`). */
  datatype Config = Config(secretKey: seq<Byte>, password: string, framing: Framing)

  const CookieName: string := "nestor"
  const CookiePath: string := "/"
  /** Default redirect target of the login form (`form.get("next", "/")`). */
  const DefaultNext: string := "/"

  datatype Method = Get | Post

  /** The fields of the login form; `None` when the field is absent. */
  datatype Form = Form(password: Option<string>, next: Option<string>)

  /** `form.get("next", "/")`: the redirect target of the login form. */
  function Next(form: Form): string {
    match form.next
    case Some(target) => target
    case None => DefaultNext
  }

  datatype Request = Request(verb: Method, path: string, cookie: Option<string>, form: Form)

  datatype SetCookie = SetCookie(name: string, value: string, path: string)

  datatype Response =
    | Empty(status: int)                                      // `Response("", status_code=...)`
    | Redirect(location: string, setCookie: Option<SetCookie>) // status 302
    | LoginPage(redir: Option<string>)                         // the rendered `login.html`
    | InternalError                                            // an exception escapes the view

  function Decoded(p: Primitives, cfg: Config, req: Request): Option<Json> {
    DecodeCookie(p, cfg.secretKey, cfg.framing, req.cookie)
  }

  /** `check_login`: the cookie must decode to a list, and that list must
      allow the request path. A missing, malformed or forged cookie, or one
      carrying anything but a list, means "not logged in". */
  function CheckLogin(p: Primitives, cfg: Config, req: Request): (loggedIn: bool)
    ensures Decoded(p, cfg, req).None? ==> !loggedIn
    ensures Decoded(p, cfg, req) == Some(NotList) ==> !loggedIn
    ensures Decoded(p, cfg, req).Some? && Decoded(p, cfg, req).value.Strings? ==>
      (loggedIn <==> Admits(Decoded(p, cfg, req).value.items, req.path))
  {
    match Decoded(p, cfg, req)
    case Some(Strings(items)) => Check(items, req.path)
    case _ => false
  }

  /** `auth`: the answer to the reverse proxy's sub-request. */
  function Auth(p: Primitives, cfg: Config, req: Request): (r: Response)
    ensures r == Empty(200) || r == Empty(401)
    ensures r == Empty(200) <==> CheckLogin(p, cfg, req)
  {
    if CheckLogin(p, cfg, req) then Empty(200) else Empty(401)
  }

  /** The list a successful login stores: the list already in the cookie, or
      the empty list when the cookie does not decode, with `""` appended. */
  function GrantedList(prior: Option<Json>): (items: seq<string>)
    requires prior != Some(NotList)
    ensures |items| > 0 && items[|items| - 1] == ""
    ensures prior.Some? ==> items[..|items| - 1] == prior.value.items
    ensures prior.None? ==> items == [""]
  {
    (if prior.Some? then prior.value.items else []) + [""]
  }

  predicate PasswordAccepted(cfg: Config, req: Request) {
    req.verb == Post && req.form.password == Some(cfg.password)
  }

  /** `login`. A POST with the right password re-issues the cookie with `""`
      appended and redirects to the form's `next`; if the old cookie holds a
      signed non-list value, appending to it raises. Otherwise (a GET, or a
      wrong password) a logged-in visitor is redirected and anyone else gets
      the login page. */
  function Login(p: Primitives, cfg: Config, req: Request): (r: Response)
    ensures (r.Redirect? && r.setCookie.Some?) <==>
      PasswordAccepted(cfg, req) && Decoded(p, cfg, req) != Some(NotList)
    ensures r.InternalError? <==>
      PasswordAccepted(cfg, req) && Decoded(p, cfg, req) == Some(NotList)
    ensures r.Redirect? && r.setCookie.Some? ==>
      && r.location == Next(req.form)
      && r.setCookie.value.name == CookieName
      && r.setCookie.value.path == CookiePath
      && r.setCookie.value.value == EncodeCookie(p, cfg.secretKey, GrantedList(Decoded(p, cfg, req)))
    ensures !PasswordAccepted(cfg, req) ==>
      && (r.Redirect? <==> CheckLogin(p, cfg, req))
      && (r.Redirect? ==> r.setCookie.None? && r.location != "")
      && (r.LoginPage? ==> (r.redir.Some? <==> req.verb == Post))
    ensures !PasswordAccepted(cfg, req) && CheckLogin(p, cfg, req) ==>
      r.location == (if req.verb == Post && Next(req.form) != "" then Next(req.form) else DefaultNext)
    ensures !PasswordAccepted(cfg, req) && !CheckLogin(p, cfg, req) ==>
      r == LoginPage(if req.verb == Post then Some(Next(req.form)) else None)
  {
    var redir := if req.verb == Post then Some(Next(req.form)) else None;
    if PasswordAccepted(cfg, req) then
      var prior := Decoded(p, cfg, req);
      if prior == Some(NotList) then InternalError
      else
        var issued := EncodeCookie(p, cfg.secretKey, GrantedList(prior));
        Redirect(redir.value, Some(SetCookie(CookieName, issued, CookiePath)))
    else if CheckLogin(p, cfg, req) then
      // `redir or "/"`: no form, or an empty `next`, falls back to "/"
      Redirect(if redir.Some? && redir.value != "" then redir.value else DefaultNext, None)
    else
      LoginPage(redir)
  }

  /** A request that presents `cookie` for `path`. */
  function WithCookie(req: Request, cookie: string, path: string): Request {
    req.(cookie := Some(cookie), path := path)
  }

  /** The cookie issued by a successful login is accepted for every path,
      except, under the source's framing, when the MAC of its JSON contains a
      separator byte: then every later check rejects it. */
  lemma LoginGrantsEveryPath(p: Primitives, cfg: Config, req: Request, path: string)
    requires Lawful(p)
    requires Login(p, cfg, req).Redirect? && Login(p, cfg, req).setCookie.Some?
    ensures var items := GrantedList(Decoded(p, cfg, req));
      var next := WithCookie(req, Login(p, cfg, req).setCookie.value.value, path);
      CheckLogin(p, cfg, next) <==>
        cfg.framing == SliceAtDigestLength || Separator !in p.hmac(cfg.secretKey, p.dumps(items))
  {
  }

  /** `auth` on a cookie the server issued for `items`: 200 exactly when the
      cookie survives decoding and `items` allows the path. */
  lemma AuthOfIssuedCookie(p: Primitives, cfg: Config, req: Request, items: seq<string>)
    requires Lawful(p)
    requires req.cookie == Some(EncodeCookie(p, cfg.secretKey, items))
    ensures Auth(p, cfg, req) == Empty(200) <==>
      && (cfg.framing == SliceAtDigestLength || Separator !in p.hmac(cfg.secretKey, p.dumps(items)))
      && Check(items, req.path)
  {
  }

  /** A wrong password, or a GET, never issues a cookie. */
  lemma NoCookieWithoutPassword(p: Primitives, cfg: Config, req: Request)
    requires !PasswordAccepted(cfg, req)
    ensures !(Login(p, cfg, req).Redirect? && Login(p, cfg, req).setCookie.Some?)
  {
  }

  /** The defect at the level of the views: a visitor without a valid cookie
      is always granted exactly `[""]`, so when the MAC of that one JSON text
      contains a separator byte, the issued cookie is rejected on every path
      and logging in again with it issues the very same cookie. With such a
      secret key no fresh visitor can ever log in. */
  lemma FreshLoginLoops(p: Primitives, cfg: Config, req: Request, path: string)
    requires Lawful(p)
    requires cfg.framing == SplitAtFirstSeparator
    requires PasswordAccepted(cfg, req) && Decoded(p, cfg, req).None?
    requires Separator in p.hmac(cfg.secretKey, p.dumps([""]))
    ensures Login(p, cfg, req).Redirect? && Login(p, cfg, req).setCookie.Some?
    ensures var issued := Login(p, cfg, req).setCookie.value.value;
      && issued == EncodeCookie(p, cfg.secretKey, [""])
      && !CheckLogin(p, cfg, WithCookie(req, issued, path))
      && Login(p, cfg, WithCookie(req, issued, req.path)) == Login(p, cfg, req)
  {
  }
}
