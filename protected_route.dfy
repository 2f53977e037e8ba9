/** `AdminRoute` of src/components/ProtectedRoute.tsx: a guard that renders
    its children for an admin and sends everyone else to "/". */
module ProtectedRoute {
  import Auth
  import AppRoutes

  /** `AdminRoute`. */
  function AdminRoute(user: Auth.Lookup): (r: AppRoutes.GuardResult)
    ensures r == AppRoutes.RenderChildren <==> user.Found? && Auth.IsAdmin(user.user)
    ensures r == AppRoutes.Raises <==> user.Raises?
    ensures r.Navigate? ==> r.to == "/"
  {
    match user
    case Raises => AppRoutes.Raises
    case NoUser => AppRoutes.Navigate("/")
    case Found(u) => if Auth.IsAdmin(u) then AppRoutes.RenderChildren else AppRoutes.Navigate("/")
  }

  /** It admits exactly the users the admin-only `ProtectedRoute` admits;
      only the redirect target differs. */
  lemma AgreesWithAdminOnlyGuard(user: Auth.Lookup)
    ensures AdminRoute(user) == AppRoutes.RenderChildren
            <==> AppRoutes.ProtectedRoute(user, true) == AppRoutes.RenderChildren
    ensures AdminRoute(user).Navigate? <==> AppRoutes.ProtectedRoute(user, true).Navigate?
  {
  }

  /** Whoever it turns away and then follows the redirect from "/" ends on
      the schedule page when signed in, and on the login page otherwise. */
  lemma RejectedVisitorsLand(user: Auth.Lookup)
    requires AdminRoute(user).Navigate?
    ensures AppRoutes.Follow(AdminRoute(user).to, user, 2)
            == if user.Found? then AppRoutes.Show(AppRoutes.Schedule) else AppRoutes.Show(AppRoutes.Login)
  {
    AppRoutes.RoutePathOfCanonical("/");
    AppRoutes.RedirectsSettle("/", user);
  }
}
