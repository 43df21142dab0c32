/** The favourites list: the JSON endpoint that adds a product to a user's favourites. */
module Favorites {
  import opened Wrappers
  import opened Records

  /** The JSON replies of `add_to_favorite`. */
  datatype FavoriteReply = Unauthorized | AlreadyInFavorites | AddedToFavorites

  /** The number of favourite rows of user `uid` for product `pid`. */
  function FavoriteCount(favs: seq<Favorite>, uid: int, pid: int): nat {
    if favs == [] then 0
    else
      var last := favs[|favs| - 1];
      FavoriteCount(favs[..|favs| - 1], uid, pid) + (if last.userId == uid && last.productId == pid then 1 else 0)
  }

  /** `Favorite.query.filter_by(user_id=uid, product_id=pid).first()` finds a row. */
  predicate HasFavorite(favs: seq<Favorite>, uid: int, pid: int) {
    exists f :: f in favs && f.userId == uid && f.productId == pid
  }

  lemma {:induction false} HasFavoriteIff(favs: seq<Favorite>, uid: int, pid: int)
    ensures HasFavorite(favs, uid, pid) <==> FavoriteCount(favs, uid, pid) > 0
  {
    if favs != [] {
      var init := favs[..|favs| - 1];
      HasFavoriteIff(init, uid, pid);
      assert favs == init + [favs[|favs| - 1]];
      if HasFavorite(init, uid, pid) {
        var f :| f in init && f.userId == uid && f.productId == pid;
        assert f in favs;
      }
    }
  }

  /** No (user, product) pair is in the favourites twice. */
  ghost predicate OncePerPair(favs: seq<Favorite>) {
    forall u, p :: FavoriteCount(favs, u, p) <= 1
  }

  /**
   `not product_id`: the body has no `product_id`, or it is 0. Either way the
   endpoint answers Unauthorized.
   */
  predicate MissingProduct(productId: Option<int>) {
    productId.None? || productId.value == 0
  }

  function FavoriteReplyFor(favs: seq<Favorite>, uid: int, productId: Option<int>): FavoriteReply {
    if MissingProduct(productId) then Unauthorized
    else if HasFavorite(favs, uid, productId.value) then AlreadyInFavorites
    else AddedToFavorites
  }

  /** The favourites table after the call; the product key is not checked against the catalogue. */
  function FavoritesAfter(favs: seq<Favorite>, uid: int, productId: Option<int>): seq<Favorite> {
    if FavoriteReplyFor(favs, uid, productId) == AddedToFavorites
    then favs + [Favorite(NextId(favs, FavoriteId), uid, productId.value)]
    else favs
  }

  /**
   An Unauthorized reply changes nothing. Otherwise the pair (`uid`, product)
   is in the favourites afterwards, a row is added exactly when the reply is
   AddedToFavorites, and no other pair's count changes; a pair that was in
   at most once stays in exactly once.
   */
  lemma FavoritesAfterSpec(favs: seq<Favorite>, uid: int, productId: Option<int>)
    ensures FavoriteReplyFor(favs, uid, productId) == Unauthorized ==> FavoritesAfter(favs, uid, productId) == favs
    ensures !MissingProduct(productId) ==>
      var pid := productId.value;
      var after := FavoritesAfter(favs, uid, productId);
      && HasFavorite(after, uid, pid)
      && (FavoriteCount(favs, uid, pid) <= 1 ==> FavoriteCount(after, uid, pid) == 1)
      && (FavoriteReplyFor(favs, uid, productId) == AddedToFavorites <==> |after| == |favs| + 1)
      && (forall u, p :: (u, p) != (uid, pid) ==> FavoriteCount(after, u, p) == FavoriteCount(favs, u, p))
  {
    if !MissingProduct(productId) {
      var pid := productId.value;
      var after := FavoritesAfter(favs, uid, productId);
      HasFavoriteIff(favs, uid, pid);
      if after != favs {
        assert after[..|after| - 1] == favs;
      }
      HasFavoriteIff(after, uid, pid);
    }
  }

  /** Adding keeps every pair in the favourites at most once. */
  lemma FavoritesAfterOncePerPair(favs: seq<Favorite>, uid: int, productId: Option<int>)
    requires OncePerPair(favs)
    ensures OncePerPair(FavoritesAfter(favs, uid, productId))
  {
    FavoritesAfterSpec(favs, uid, productId);
    var after := FavoritesAfter(favs, uid, productId);
    forall u, p ensures FavoriteCount(after, u, p) <= 1 {
      assert FavoriteCount(favs, u, p) <= 1;
    }
  }

  /**
   Adding the same product twice: the second call answers "Already in
   favorites" and leaves the table as the first call left it, with the pair
   in it exactly once.
   */
  lemma AddFavoriteTwice(favs: seq<Favorite>, uid: int, pid: int)
    requires pid != 0
    requires FavoriteCount(favs, uid, pid) <= 1
    ensures var once := FavoritesAfter(favs, uid, Some(pid));
      && FavoriteReplyFor(once, uid, Some(pid)) == AlreadyInFavorites
      && FavoritesAfter(once, uid, Some(pid)) == once
      && FavoriteCount(once, uid, pid) == 1
  {
    FavoritesAfterSpec(favs, uid, Some(pid));
  }
}
