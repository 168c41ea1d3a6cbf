/** `_wrapped_view` of the `login_required_ajax` decorator in
    pgm4app/utils.py, as a decision over the request. The scheme and network
    location of the login URL and of the current URL (what `urlparse`
    yields) are inputs, as is the response the wrapped view would give. */
module LoginGate {
  import opened Base

  datatype Request = Request(
    authenticated: bool,
    isAjax: bool,
    fullPath: string,       // request.get_full_path()
    scheme: string,         // scheme of request.build_absolute_uri()
    netloc: string)         // network location of the same

  datatype LoginUrl = LoginUrl(url: string, scheme: string, netloc: string)

  /** What the wrapper hands back. `NoResponse` is Python's implicit `None`
      when no branch returns. */
  datatype Response<R> =
    | ViewResponse(response: R)
    | Unauthorized                    // HttpResponse(status=401)
    | RedirectToLogin(next: string, loginUrl: string, redirectField: Option<string>)
    | NoResponse

  /** The login page is on the current origin, where an empty part of the
      login URL matches anything. */
  predicate SameOrigin(login: LoginUrl, req: Request) {
    (login.scheme == "" || login.scheme == req.scheme)
    && (login.netloc == "" || login.netloc == req.netloc)
  }

  function Wrapped<R>(req: Request, view: R, login: LoginUrl, redirectField: Option<string>): (r: Response<R>)
    ensures r.ViewResponse? <==> req.authenticated
    ensures r.ViewResponse? ==> r.response == view
    ensures r == Unauthorized <==> !req.authenticated && req.isAjax
    ensures r.RedirectToLogin? <==> !req.authenticated && !req.isAjax && SameOrigin(login, req)
    ensures r.RedirectToLogin? ==> r.next == req.fullPath && r.loginUrl == login.url && r.redirectField == redirectField
    ensures r == NoResponse <==> !req.authenticated && !req.isAjax && !SameOrigin(login, req)
  {
    if req.authenticated then ViewResponse(view)
    else if req.isAjax then Unauthorized
    else if SameOrigin(login, req) then RedirectToLogin(req.fullPath, login.url, redirectField)
    else NoResponse
  }

  /** A relative login URL (no scheme, no host) redirects every anonymous
      non-AJAX request, so the fall-through cannot happen. */
  lemma RelativeLoginAlwaysAnswers<R>(req: Request, view: R, login: LoginUrl, redirectField: Option<string>)
    requires login.scheme == "" && login.netloc == ""
    ensures Wrapped(req, view, login, redirectField) != NoResponse
  {
  }

  /** The outcome does not depend on the view's response unless the user is
      authenticated: an anonymous request never reaches the view. */
  lemma AnonymousIgnoresView<R>(req: Request, v1: R, v2: R, login: LoginUrl, redirectField: Option<string>)
    requires !req.authenticated
    ensures Wrapped(req, v1, login, redirectField) == Wrapped(req, v2, login, redirectField)
  {
  }
}
