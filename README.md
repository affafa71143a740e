# responsive-image width resolution in Dafny

This project models the `ResponsiveImage` service of ember-responsive-image
(`addon/services/responsive-image.js`). Given a build-time catalog `meta`
(image name → list of `{ width, height, image }` variants), a screen width and
a device pixel ratio, the service picks one pre-generated variant of an image:

1. `physicalWidth = screenWidth × (devicePixelRatio || 1)`;
2. the target width is `physicalWidth × (size || 100) / 100`;
3. the supported widths of the image are folded with `reduce`, seeded with `0`,
   keeping the smaller of two widths when both reach the target and the larger
   otherwise;
4. `findBy('width', …)` returns the first variant of the selected width, and
   `getImageBySize` reads its `image` URL.

The service's fields are read-only configuration, so the model is pure: a
`Service` datatype carries `screenWidth`, `devicePixelRatio` and `meta`, and
every operation is a function of it. Modules:

- `Wrappers` (`wrappers.dfy`): `Option` (for `undefined`) and `Result` (for a throw).
- `WidthSelection` (`width_selection.dfy`): the reducer `PickWidth`, the fold
  `ReduceWidths`, `SelectWidth`, and the declarative predicate `IsBestFit`
  (a member of the candidates that reaches the target and is the smallest such
  member, or the largest member when none reaches it). The central lemma
  `ReduceIsBestFit` proves the fold computes the best fit among its seed and
  the widths; minimality, the fallback to the largest width, membership,
  order-independence and monotonicity all follow from it.
- `ResponsiveImage` (`responsive_image.dfy`): variants, the service, the
  lookups, and lemmas that connect the whole path from `size` to URL.

Target widths are `real`; widths are `int`. JavaScript truthiness of `size` and
`devicePixelRatio` is modelled as "absent or zero ⇒ default".

Behaviour for a target of at most 0, with non-negative widths: the fold's seed
`0` already reaches such a target, so it is kept (`min(item, 0) = 0` on line 81)
and the selected width is 0 (`SelectNonPositiveTarget`). One might expect a
non-positive target to select the smallest width; the code keeps the seed 0
instead. With positive widths `findBy` then finds nothing and reading `.image`
of `undefined` throws (`NegativeSizeFindsNoImage`). Likewise, because `size || 100`
turns size 0 into 100 percent, the selected width is monotone in the effective
size but not in `size` itself across 0 (`SizeZeroSelectsFullWidth`).

## Model

| member | source | states |
|---|---|---|
| WidthSelection.PickWidth | addon/services/responsive-image.js:79-84 | the reducer returns one of its two arguments, and the better fit of the two for the target |
| WidthSelection.ReduceWidths | addon/services/responsive-image.js:79-85 | the fold returns its seed or one of the widths it visits |
| WidthSelection.SelectWidth | addon/services/responsive-image.js:79-85 | the selected width is the seed 0 or a supported width |
| WidthSelection.ReduceIsBestFit | addon/services/responsive-image.js:79-85 | the left fold from any seed is the best fit for the target among the seed and all widths |
| WidthSelection.SelectIsBestFit | addon/services/responsive-image.js:79-85 | the selection is the best fit among 0 and the supported widths |
| WidthSelection.BestFitUnique | addon/services/responsive-image.js:80-83 | the best fit is determined by the target and the set of candidates |
| WidthSelection.SelectSmallestSufficient | addon/services/responsive-image.js:77-86 | with a positive target that some width reaches, the selection is a supported width, reaches the target and is at most every width that reaches it |
| WidthSelection.SelectFallsBackToLargest | addon/services/responsive-image.js:79-85 | with a positive target that no (non-negative) width reaches, the selection is the largest supported width |
| WidthSelection.SelectIsMember | addon/services/responsive-image.js:79-85 | with a positive target and positive widths the selection is a supported width iff there is one, and is 0 iff the list is empty |
| WidthSelection.SelectNonPositiveTarget | addon/services/responsive-image.js:80-81 | with a target at most 0 and non-negative widths the seed 0 is selected |
| WidthSelection.SelectPermutation | addon/services/responsive-image.js:77-86 | permuting the supported widths does not change the selection |
| WidthSelection.BestFitMonotone | addon/services/responsive-image.js:80-83 | over the same candidates, a larger target never has a smaller best fit |
| WidthSelection.SelectMonotone | addon/services/responsive-image.js:77-86 | a larger target never selects a smaller width |
| WidthSelection.SelectExamples | addon/services/responsive-image.js:77-86 | widths 40, 80, 160: target 70 selects 80, target 500 selects 160 |
| ResponsiveImage.NewService | addon/services/responsive-image.js:26 | the initial screen width is the screen's width, or 320 when there is no screen |
| ResponsiveImage.PixelRatioOrDefault | addon/services/responsive-image.js:134 | an absent or zero pixel ratio counts as 1, any other ratio is kept |
| ResponsiveImage.SizeOrDefault | addon/services/responsive-image.js:78 | an absent or zero size counts as 100, any other size is kept |
| ResponsiveImage.PhysicalWidth | addon/services/responsive-image.js:133-135 | the physical width is positive when the screen width and the effective ratio are |
| ResponsiveImage.GetDestinationWidthBySize | addon/services/responsive-image.js:108-114 | an absent or zero size gives the whole physical width as the target |
| ResponsiveImage.DestinationWidth | addon/services/responsive-image.js:78 | applying the size default (absent or zero means 100) before the call on line 78 and again inside it on line 111 gives the same target as applying it once |
| ResponsiveImage.TargetWidthDefaultSize | addon/services/responsive-image.js:108-114 | a non-zero size gives physical width × size / 100; absent size, size 0 and size 100 all give the physical width; the default applied twice equals once |
| ResponsiveImage.TargetWidthSign | addon/services/responsive-image.js:108-114 | with a positive physical width, an absent or non-negative size gives a positive target and a negative size a negative one |
| ResponsiveImage.TargetWidthMonotone | addon/services/responsive-image.js:108-114 | a larger effective size never gives a smaller target |
| ResponsiveImage.GetImages | addon/services/responsive-image.js:36-39 | fails with UnknownImage exactly when the name is not in the catalog, otherwise returns its variants |
| ResponsiveImage.Widths | addon/services/responsive-image.js:97-99 | the projection has the variants' length and element i is variant i's width |
| ResponsiveImage.GetSupportedWidths | addon/services/responsive-image.js:96-100 | fails exactly for unknown names; otherwise the widths of the image's variants, in order |
| ResponsiveImage.GetDestinationImageWidthBySize | addon/services/responsive-image.js:77-86 | fails exactly for unknown names; otherwise the best fit for the target among 0 and the image's widths |
| ResponsiveImage.FindByWidth | addon/services/responsive-image.js:65 | none iff no variant has the width; otherwise the variant at the lowest index with that width |
| ResponsiveImage.GetImageDataBySize | addon/services/responsive-image.js:63-66 | fails exactly for unknown names; otherwise the first variant whose width is the selected width, or none |
| ResponsiveImage.GetImageBySize | addon/services/responsive-image.js:50-52 | succeeds exactly when a variant was found and returns its image field; unknown names fail with UnknownImage, a missing variant with UndefinedImageData |
| ResponsiveImage.ImageDataDefaultSize | addon/services/responsive-image.js:78 | an absent size and size 0 select the same variant as size 100 |
| ResponsiveImage.UnknownImageFails | addon/services/responsive-image.js:36-39 | every lookup fails with UnknownImage for a name the catalog does not hold |
| ResponsiveImage.ImageDataIsBestFitVariant | addon/services/responsive-image.js:63-86 | for a known image with positive widths and a positive target, a variant is found: the first of its width, of the smallest width reaching the target, or of the largest width when none does |
| ResponsiveImage.SelectedWidthMonotone | addon/services/responsive-image.js:77-86 | for a known image and non-negative physical width, a larger effective size never selects a smaller width |
| ResponsiveImage.NegativeSizeFindsNoImage | addon/services/responsive-image.js:78-85 | a negative size selects 0, no variant of positive width matches, and reading the URL fails |
| ResponsiveImage.HeroScenario | addon/services/responsive-image.js:50-52 | screen 100 at ratio 2 is 200 physical pixels; size 50 on widths 40 and 160 returns the 160-pixel URL |
| ResponsiveImage.SizeZeroSelectsFullWidth | addon/services/responsive-image.js:111 | on a 100-pixel screen with widths 40, 80 and 160, size 0 selects 160 and size 50 selects 80, since 0 means 100 percent |

## Left out

- Ember plumbing: `Ember.Service.extend`, `this.get` and the `computed` dependency tracking of `physicalWidth` are replaced by a plain function of the `Service` value.
- Environment probing: `screen.width` and `window.devicePixelRatio` are inputs (`NewService`'s `screen`, the service's `devicePixelRatio`); an absent ratio stands for a falsy `window` or a falsy `window.devicePixelRatio`, both of which fall back to 1.
- An undeclared `window` (as outside a browser): line 134 does not guard it with `typeof`, unlike line 26 for `screen`, so reading `physicalWidth` throws a ReferenceError there; the model has no such failure.
- Floating point: `devicePixelRatio`, `size / 100` and the target are JavaScript doubles; the model uses exact `real` arithmetic, so rounding and `NaN` (also falsy in JavaScript) are not modelled.
- `Ember.A` wrapping and the stripping of `assert` in production builds: the unknown-name case is always the `UnknownImage` failure; what a production build does with `meta[name]` undefined is not modelled.
- Build-time generation of `meta` is not part of this model; the catalog is taken as given, without assuming unique or positive widths except where a lemma requires them.
- The TypeError thrown when `getImageBySize` reads `.image` of `undefined` is modelled as the `UndefinedImageData` failure.
