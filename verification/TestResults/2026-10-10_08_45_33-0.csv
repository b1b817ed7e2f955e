TestResult.DisplayName,TestResult.Outcome,TestResult.Duration,TestResult.ResourceCount,RandomSeed
LevelManager.PutKeepsValid (correctness),Failed,00:00:06.7095655,2030091,0
